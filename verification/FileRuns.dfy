/** Whole runs of the file system against a model without a disk: names that lead to
    files, the bytes of each file, and open handles. */
module FileRuns {
  import opened Containers
  import opened Bytes
  import opened Devices
  import opened Directories
  import opened Volumes
  import opened FreeMaps
  import opened FileTables
  import opened FileStates
  import opened Formatting
  import opened FileSystems

  type Name = seq<Byte>

  // ------------------------------------------------------------------- the model

  datatype Handle = Handle(id: nat, pos: nat, denying: bool)

  /** Files have ids; a file is there while a name leads to it or a handle is open on it. */
  datatype Files = Files(names: map<Name, nat>, data: map<nat, seq<Byte>>, handles: map<nat, Handle>)

  const EMPTY := Files(map[], map[], map[])

  datatype Op =
    | Create(name: Name, size: nat) | Open(name: Name) | Remove(name: Name)
    | Reopen(f: nat) | Close(f: nat) | Read(f: nat, size: nat) | Write(f: nat, data: seq<Byte>)
    | Seek(f: nat, pos: nat) | Deny(f: nat) | Allow(f: nat) | Mount

  /** What a call returns; Refused stands for a handle that is not open, or for a shutdown
      with files open. */
  datatype Outcome = Ok | Failed | Refused | Handed(f: nat) | Took(n: nat) | Gave(bytes: seq<Byte>)

  /** A call the kernel may make: names are C strings, sizes are offsets. */
  predicate IsCall(op: Op) {
    op.Create? ==> op.size < 0x8000_0000 && forall k :: 0 <= k < |op.name| ==> op.name[k] != 0
  }

  ghost predicate Used(a: Files, id: nat) { exists f :: f in a.handles && a.handles[f].id == id }

  ghost predicate Denied(a: Files, id: nat) {
    exists f :: f in a.handles && a.handles[f].id == id && a.handles[f].denying
  }

  /** The bytes of a file that nothing leads to any more are gone. */
  ghost function Forgotten(a: Files, id: nat): Files {
    if id in a.names.Values || Used(a, id) then a else a.(data := a.data - {id})
  }

  ghost predicate Adds(a: Files, name: Name, size: nat, id: nat, b: Files) {
    id !in a.data && b == Files(a.names[name := id], a.data[id := Zeros(size)], a.handles)
  }

  /** What the call does to the model and what it returns. Creation may fail for lack of
      room, which the model does not have; everything else is determined but for the
      numbers of new files and handles. */
  ghost predicate Does(a: Files, op: Op, out: Outcome, b: Files) {
    match op
    case Create(name, size) =>
      if out == Ok then 0 < |name| <= NAME_MAX && name !in a.names && exists id :: Adds(a, name, size, id, b)
      else out == Failed && b == a
    case Open(name) =>
      if name !in a.names then out == Failed && b == a else NewHandle(a, a.names[name], out, b)
    case Remove(name) =>
      if name !in a.names then out == Failed && b == a
      else out == Ok && b == Forgotten(a.(names := a.names - {name}), a.names[name])
    case Mount => b == a && out == if a.handles == map[] then Ok else Refused
    case _ => if op.f in a.handles then Uses(a, op, a.handles[op.f], out, b) else out == Refused && b == a
  }

  ghost predicate NewHandle(a: Files, id: nat, out: Outcome, b: Files) {
    out.Handed? && out.f !in a.handles && b == a.(handles := a.handles[out.f := Handle(id, 0, false)])
  }

  /** A call on an open handle. */
  ghost predicate Uses(a: Files, op: Op, h: Handle, out: Outcome, b: Files) {
    match op
    case Reopen(_) => NewHandle(a, h.id, out, b)
    case Close(f) => out == Ok && b == Forgotten(a.(handles := a.handles - {f}), h.id)
    case Read(f, size) =>
      && h.id in a.data
      && var n := Count(size, |a.data[h.id]|, h.pos);
         out == Gave(Take(a.data[h.id], h.pos, n)) && b == Put(a, f, h.(pos := h.pos + n))
    case Write(f, data) =>
      && h.id in a.data
      && var n := if Denied(a, h.id) then 0 else Count(|data|, |a.data[h.id]|, h.pos);
         && out == Took(n)
         && b == Put(a, f, h.(pos := h.pos + n)).(data := a.data[h.id := Written(a.data[h.id], h.pos, data, n)])
    case Seek(f, pos) => out == Ok && b == Put(a, f, h.(pos := pos))
    case Deny(f) => out == Ok && b == Put(a, f, h.(denying := true))
    case Allow(f) => out == Ok && b == Put(a, f, h.(denying := false))
    case _ => false
  }

  function Put(a: Files, f: nat, h: Handle): Files { a.(handles := a.handles[f := h]) }

  /** What users see. */
  ghost function Seen(a: Files): map<Name, seq<Byte>> {
    map name | name in a.names && a.names[name] in a.data :: a.data[a.names[name]]
  }

  // -------------------------------------------- what a state of the disk stands for

  ghost function HandlesOf(nodes: map<nat, Inode>, files: map<nat, File>, mapFile: nat): map<nat, Handle> {
    map f | f in files && f != mapFile && files[f].inode in nodes ::
      Handle(nodes[files[f].inode].sector, files[f].pos, files[f].denying)
  }

  ghost function DataIn(bytes: seq<Byte>, live: set<nat>): map<nat, seq<Byte>> {
    map s | s in live && s >= 2 :: FileBytes(bytes, s)
  }

  ghost function Model(st: State): Files {
    Files(Directory(st.bytes), DataIn(st.bytes, LiveIn(st)), HandlesOf(st.nodes, st.files, st.mapFile))
  }

  /** The bytes under the names are those of the refinement lemmas. */
  lemma SeenIsView(st: State)
    requires Inv(st)
    ensures Seen(Model(st)) == View(st)
  {
    hide Inv, Directory, LiveIn, FileBytes;
    forall name | name in Directory(st.bytes) ensures Directory(st.bytes)[name] in Model(st).data {
      NamedIsLive(st, name);
    }
  }

  /** The open handles are the files but the map's own. */
  lemma HandlesAre(st: State, f: nat)
    requires Inv(st)
    ensures f in Model(st).handles <==> f in st.files && f != st.mapFile
    ensures f in Model(st).handles ==> Model(st).handles[f].id >= 2 && Model(st).handles[f].id in Model(st).data
  {
    hide Inv, Directory, LiveIn, FileBytes;
    if f in st.files && f != st.mapFile {
      FileIsOrdinary(st, f);
      NodeIsLive(st, st.files[f].inode);
    }
  }

  lemma DataKept(was: seq<Byte>, now: seq<Byte>, live: set<nat>)
    requires KeptFiles(was, now, live)
    ensures DataIn(now, live) == DataIn(was, live)
  {
    hide KeptFiles, FileBytes;
    forall s | s in live && s >= 2 ensures FileBytes(now, s) == FileBytes(was, s) {
      SeenKept(was, now, live, s);
    }
  }

  /** Between calls an inode is open just while a handle is on it. */
  lemma UsedIffOpen(st: State, s: nat)
    requires Inv(st) && st.raw == multiset{} && s >= 2
    ensures s in OpenSectors(st.nodes) <==> Used(Model(st), s)
  {
    hide Inv, Directory, LiveIn, FileBytes, Saved;
    if s in OpenSectors(st.nodes) {
      var i :| i in st.nodes && st.nodes[i].sector == s;
      CountsAreExact(st, i, i);
      var f :| f in Handles(st.files, i);
      MapIsSystem(st);
      HandlesAre(st, f);
      assert Model(st).handles[f].id == s;
    }
    if Used(Model(st), s) {
      var f :| f in Model(st).handles && Model(st).handles[f].id == s;
      assert st.nodes[st.files[f].inode].sector == s;
    }
  }

  lemma MapIsSystem(st: State)
    requires Inv(st)
    ensures st.mapFile in st.files && st.files[st.mapFile].inode in st.nodes
    ensures st.nodes[st.files[st.mapFile].inode].sector == FREE_MAP_SECTOR && !st.files[st.mapFile].denying
  {
  }

  /** The count of denials is positive just while some handle denies. */
  lemma DeniedIff(st: State, f: nat)
    requires Inv(st) && st.raw == multiset{} && f in Model(st).handles
    ensures
      && f in st.files && st.files[f].inode in st.nodes
      && (st.nodes[st.files[f].inode].denyCnt > 0 <==> Denied(Model(st), Model(st).handles[f].id))
  {
    hide Inv, Directory, LiveIn, FileBytes, Saved;
    HandlesAre(st, f);
    var i := st.files[f].inode;
    CountsAreExact(st, i, i);
    var s := st.nodes[i].sector;
    if st.nodes[i].denyCnt > 0 {
      var g :| g in Denying(st.files, i);
      MapIsSystem(st);
      HandlesAre(st, g);
      assert Model(st).handles[g].id == s && Model(st).handles[g].denying;
    }
    if Denied(Model(st), s) {
      var g :| g in Model(st).handles && Model(st).handles[g].id == s && Model(st).handles[g].denying;
      HandlesAre(st, g);
      CountsAreExact(st, i, st.files[g].inode);
      assert g in Denying(st.files, i);
    }
  }

  // ---------------------------------------------------------------- call by call

  ghost predicate Backed(nodes: map<nat, Inode>, files: map<nat, File>) {
    forall g :: g in files ==> files[g].inode in nodes
  }

  lemma FilesBacked(st: State)
    requires Inv(st)
    ensures Backed(st.nodes, st.files)
  {
    hide VolOk, Saved;
  }

  /** Inodes in memory keep their sectors. */
  ghost predicate SameSectors(was: map<nat, Inode>, now: map<nat, Inode>) {
    forall i :: i in was ==> i in now && now[i].sector == was[i].sector
  }

  /** One file is new, or changed. */
  lemma HandlePut(was: map<nat, Inode>, now: map<nat, Inode>, files: map<nat, File>, mapFile: nat, f: nat, x: File)
    requires Backed(was, files) && SameSectors(was, now) && x.inode in now && f != mapFile
    ensures HandlesOf(now, files[f := x], mapFile) ==
      HandlesOf(was, files, mapFile)[f := Handle(now[x.inode].sector, x.pos, x.denying)]
  {
  }

  lemma HandlesSame(was: map<nat, Inode>, now: map<nat, Inode>, files: map<nat, File>, mapFile: nat)
    requires Backed(was, files) && SameSectors(was, now)
    ensures HandlesOf(now, files, mapFile) == HandlesOf(was, files, mapFile)
  {
  }

  lemma HandleGone(was: map<nat, Inode>, now: map<nat, Inode>, files: map<nat, File>, mapFile: nat, f: nat)
    requires Backed(now, files - {f}) && SameSectors(now, was)
    ensures HandlesOf(now, files - {f}, mapFile) == HandlesOf(was, files, mapFile) - {f}
  {
  }

  /** The counter for new ids is not part of what a state stands for. */
  lemma IdsUnseen(st: State, next: nat)
    ensures Model(st.(nextId := next)) == Model(st)
  {
  }

  lemma CreateDoes(a: State, b: State, name: Name, size: nat, ok: bool)
    requires Made(a, b, name, size, ok)
    ensures Does(Model(a), Create(name, size), if ok then Ok else Failed, Model(b))
  {
    hide Directory, LiveIn, FileBytes, KeptFiles, RoomFor, HandlesOf;
    DataKept(a.bytes, b.bytes, LiveIn(a));
    if ok {
      var s, d :| Created(a, b, name, size, s, d);
      assert DataIn(b.bytes, LiveIn(b)) == DataIn(a.bytes, LiveIn(a))[s := Zeros(size)];
      assert Adds(Model(a), name, size, s, Model(b));
    }
  }

  lemma OpenDoes(a: State, b: State, name: Name, f: nat)
    requires Inv(a) && HasOpened(a, b, name, f) && b.mapFile == a.mapFile
    ensures Does(Model(a), Open(name), Handed(f), Model(b))
  {
    hide Inv, Directory, LiveIn, FileBytes, HandlesOf, DataIn;
    MapIsSystem(a);
    FilesBacked(a);
    HandlesAre(a, f);
    HandlePut(a.nodes, b.nodes, a.files, a.mapFile, f, b.files[f]);
  }

  /** No other name leads to the same file. */
  lemma OnlyName(st: State, name: Name)
    requires Inv(st) && name in Directory(st.bytes)
    ensures Directory(st.bytes)[name] !in (Directory(st.bytes) - {name}).Values
  {
    hide TablesOk, Saved, MapHandle, Sound, Directory;
  }

  /** Only the inode of the removed name changes in memory, if it is there. */
  lemma RemovedHandles(a: State, b: State, name: Name)
    requires Inv(a) && HasRemoved(a, b, name) && b.mapFile == a.mapFile
    ensures HandlesOf(b.nodes, b.files, b.mapFile) == HandlesOf(a.nodes, a.files, a.mapFile)
  {
    hide Inv, Directory, LiveIn, KeptFiles, Released, HandlesOf;
    FilesBacked(a);
    HandlesSame(a.nodes, b.nodes, a.files, a.mapFile);
  }

  lemma DataLess(bytes: seq<Byte>, live: set<nat>, s: nat)
    ensures DataIn(bytes, live - {s}) == DataIn(bytes, live) - {s}
  {
    hide FileBytes;
  }

  /** A name goes, or a handle; the file's bytes go when that was the last way to it. */
  lemma ForgottenIs(m: Files, id: nat, gone: bool, b: Files)
    requires b.names == m.names && b.handles == m.handles && (gone <==> !(id in m.names.Values || Used(m, id)))
    requires b.data == if gone then m.data - {id} else m.data
    ensures b == Forgotten(m, id)
  {
  }

  lemma RemoveDoes(a: State, b: State, name: Name)
    requires Inv(a) && a.raw == multiset{} && HasRemoved(a, b, name) && b.mapFile == a.mapFile
    ensures Does(Model(a), Remove(name), Ok, Model(b))
  {
    hide Inv, Directory, LiveIn, FileBytes, KeptFiles, Released, HandlesOf, DataIn, Forgotten, Used;
    var s := Directory(a.bytes)[name];
    NamedIsLive(a, name);
    UsedIffOpen(a, s);
    OnlyName(a, name);
    DataKept(a.bytes, b.bytes, LiveIn(b));
    RemovedHandles(a, b, name);
    DataLess(a.bytes, LiveIn(a), s);
    var m := Model(a).(names := Directory(a.bytes) - {name});
    SameUse(Model(a), m, s);
    ForgottenIs(m, s, s !in OpenSectors(a.nodes), Model(b));
  }

  lemma SameUse(a: Files, b: Files, id: nat)
    requires a.handles == b.handles
    ensures Used(a, id) == Used(b, id)
  {
  }

  lemma ReopenDoes(a: State, b: State, f: nat, g: nat)
    requires Inv(a) && f in a.files && f != a.mapFile && g !in a.files && a.files[f].inode in a.nodes
    requires b.files == a.files[g := File(a.files[f].inode, 0, false)] && b.mapFile == a.mapFile
    requires b.bytes == a.bytes && LiveIn(b) == LiveIn(a)
    requires b.nodes == a.nodes[a.files[f].inode := a.nodes[a.files[f].inode].(openCnt := a.nodes[a.files[f].inode].openCnt + 1)]
    ensures Does(Model(a), Reopen(f), Handed(g), Model(b))
  {
    hide Inv, Directory, LiveIn, FileBytes, DataIn;
    MapIsSystem(a);
    FilesBacked(a);
    HandlesAre(a, f);
    HandlesAre(a, g);
    HandlePut(a.nodes, b.nodes, a.files, a.mapFile, g, b.files[g]);
  }

  /** The handle that is closed was the last on its file just when the count was 1. */
  lemma LastHandle(a: State, f: nat)
    requires Inv(a) && a.raw == multiset{} && f in Model(a).handles
    ensures f in a.files && a.files[f].inode in a.nodes
    ensures
      var n := a.nodes[a.files[f].inode];
      n.openCnt == 1 <==> !Used(Model(a).(handles := Model(a).handles - {f}), n.sector)
  {
    hide Inv, Directory, LiveIn, FileBytes, Saved;
    HandlesAre(a, f);
    var i := a.files[f].inode;
    var rest := Model(a).(handles := Model(a).handles - {f});
    var s := a.nodes[i].sector;
    CountsAreExact(a, i, i);
    assert f in Handles(a.files, i);
    MapIsSystem(a);
    forall g | g in Handles(a.files, i) && g != f ensures g in rest.handles && rest.handles[g].id == s {
      HandlesAre(a, g);
    }
    if Used(rest, s) {
      var g :| g in rest.handles && rest.handles[g].id == s;
      HandlesAre(a, g);
      CountsAreExact(a, i, a.files[g].inode);
      SubsetSize({f, g}, Handles(a.files, i));
    } else {
      assert Handles(a.files, i) == {f};
    }
  }

  lemma RemovedIffUnnamed(st: State, i: nat)
    requires Inv(st) && i in st.nodes && st.nodes[i].sector >= 2
    ensures st.nodes[i].removed <==> st.nodes[i].sector !in Directory(st.bytes).Values
  {
    hide TablesOk, Saved, MapHandle, Sound, Directory;
    assert NodeOk(st.bytes, st.nodes[i]);
  }

  lemma CloseDoes(a: State, b: State, f: nat)
    requires Inv(a) && a.raw == multiset{} && Inv(b) && f in a.files && f != a.mapFile && a.files[f].inode in a.nodes
    requires b.files == a.files - {f} && b.mapFile == a.mapFile && Directory(b.bytes) == Directory(a.bytes)
    requires SameSectors(b.nodes, a.nodes)
    requires
      var n := a.nodes[a.files[f].inode];
      LiveIn(b) == if n.openCnt == 1 && n.removed then LiveIn(a) - {n.sector} else LiveIn(a)
    requires KeptFiles(a.bytes, b.bytes, LiveIn(b))
    ensures Does(Model(a), Close(f), Ok, Model(b))
  {
    hide Inv, Directory, LiveIn, FileBytes, KeptFiles, DataIn, Forgotten, Used;
    var n := a.nodes[a.files[f].inode];
    HandlesAre(a, f);
    LastHandle(a, f);
    RemovedIffUnnamed(a, a.files[f].inode);
    DataKept(a.bytes, b.bytes, LiveIn(b));
    DataLess(a.bytes, LiveIn(a), n.sector);
    FilesBacked(b);
    HandleGone(a.nodes, b.nodes, a.files, a.mapFile, f);
    assert Model(a).handles[f].id == n.sector;
    hide HandlesOf, SameSectors, Backed;
    ForgottenIs(Model(a).(handles := Model(a).handles - {f}), n.sector, n.openCnt == 1 && n.removed, Model(b));
  }

  lemma ReadDoes(a: State, b: State, f: nat, size: nat, was: seq<Byte>, now: seq<Byte>, n: nat)
    requires Inv(a) && f in a.files && f != a.mapFile && |was| == size == |now|
    requires HasReadFile(a, f, was, now, size, a.files[f].pos, n) && b == Moved(a, f, a.files[f].pos + n)
    ensures n <= |now| && Does(Model(a), Read(f, size), Gave(now[..n]), Model(b))
  {
    hide Inv, Directory, Live, NodeAt;
    HandlesAre(a, f);
    FilesBacked(a);
    HandlePut(a.nodes, a.nodes, a.files, a.mapFile, f, b.files[f]);
    var h := Model(a).handles[f];
    assert now[..n] == Take(Model(a).data[h.id], h.pos, n);
  }

  lemma WrittenData(a: State, b: State, f: nat, data: seq<Byte>, pos: nat, n: nat)
    requires Inv(a) && f in a.files && f != a.mapFile && HasWrittenFile(a, b, f, data, |data|, pos, n)
    ensures
      var s := a.nodes[a.files[f].inode].sector;
      && s in Model(a).data && (n > 0 ==> pos + n <= |Model(a).data[s]|)
      && n == (if a.nodes[a.files[f].inode].denyCnt > 0 then 0 else Count(|data|, |Model(a).data[s]|, pos))
      && DataIn(b.bytes, LiveIn(a)) == Model(a).data[s := Written(Model(a).data[s], pos, data, n)]
  {
    hide Inv, Directory, Live, NodeAt, Kept, HandlesOf;
    FileIsOrdinary(a, f);
    var s := a.nodes[a.files[f].inode].sector;
    NodeIsLive(a, a.files[f].inode);
    forall t | t in LiveIn(a) && t >= 2 && t != s ensures FileBytes(b.bytes, t) == FileBytes(a.bytes, t) {
      assert Kept(a.bytes, b.bytes, t);
      KeptBytes(a.bytes, b.bytes, t);
    }
  }

  lemma WriteDoes(a: State, b: State, c: State, f: nat, data: seq<Byte>, n: nat)
    requires Inv(a) && a.raw == multiset{} && f in a.files && f != a.mapFile
    requires HasWrittenFile(a, b, f, data, |data|, a.files[f].pos, n)
    requires c == b.(files := a.files[f := a.files[f].(pos := a.files[f].pos + n)])
    ensures Does(Model(a), Write(f, data), Took(n), Model(c))
  {
    hide Inv, Directory, Live, NodeAt, Kept, FileBytes, DataIn, Written;
    HandlesAre(a, f);
    FilesBacked(a);
    HandlePut(a.nodes, a.nodes, a.files, a.mapFile, f, c.files[f]);
    DeniedIff(a, f);
    WrittenData(a, b, f, data, a.files[f].pos, n);
    assert LiveIn(c) == LiveIn(a);
    hide Denied;
  }

  lemma SeekDoes(a: State, f: nat, pos: nat)
    requires Inv(a) && f in a.files && f != a.mapFile
    ensures Does(Model(a), Seek(f, pos), Ok, Model(Moved(a, f, pos)))
  {
    hide Inv, Directory, FileBytes, DataIn;
    HandlesAre(a, f);
    FilesBacked(a);
    HandlePut(a.nodes, a.nodes, a.files, a.mapFile, f, Moved(a, f, pos).files[f]);
  }

  lemma DenyDoes(a: State, b: State, f: nat, on: bool)
    requires Inv(a) && f in a.files && f != a.mapFile && a.files[f].inode in a.nodes
    requires (!on ==> a.nodes[a.files[f].inode].denyCnt > 0) && b == FileStates.Denied(a, f, on) && LiveIn(b) == LiveIn(a)
    ensures Does(Model(a), if on then Deny(f) else Allow(f), Ok, Model(b))
  {
    hide Inv, Directory, LiveIn, FileBytes, DataIn;
    HandlesAre(a, f);
    FilesBacked(a);
    HandlePut(a.nodes, b.nodes, a.files, a.mapFile, f, b.files[f]);
  }

  lemma DenySame(a: State, f: nat)
    requires Inv(a) && f in a.files && f != a.mapFile
    ensures Does(Model(a), if a.files[f].denying then Deny(f) else Allow(f), Ok, Model(a))
  {
    hide Inv, Directory, LiveIn, FileBytes, DataIn;
    HandlesAre(a, f);
    assert Model(a).handles[f := Model(a).handles[f]] == Model(a).handles;
  }

  // ------------------------------------------------------------------------- runs

  /** A call on a handle that is open. */
  method Use(fs: FileSystem, op: Op) returns (out: Outcome)
    requires fs.Valid() && fs.raw == multiset{} && !(op.Create? || op.Open? || op.Remove? || op.Mount?)
    requires op.f in fs.files && op.f != fs.mapFile
    modifies fs, fs.dev, fs.freeMap.bits
    ensures fs.Valid() && fs.raw == multiset{} && Does(old(Model(fs.St())), op, out, Model(fs.St()))
  {
    hide Inv, Does, HasReadFile, HasWrittenFile, LiveIn, Directory, KeptFiles, Model;
    ghost var a := fs.St();
    out := Ok;
    match op
    case Reopen(f) =>
      var g := fs.FileReopen(f);
      ReopenDoes(a, fs.St(), f, g);
      out := Handed(g);
    case Close(f) =>
      fs.FileClose(f);
      CloseDoes(a, fs.St(), f);
    case Read(f, size) =>
      var buffer := new Byte[size];
      ghost var was := buffer[..];
      var n := fs.FileRead(f, buffer, size);
      ReadDoes(a, fs.St(), f, size, was, buffer[..], n);
      out := Gave(buffer[..n]);
    case Write(f, data) =>
      var n := fs.FileWrite(f, data, |data|);
      WriteDoes(a, fs.St().(files := a.files), fs.St(), f, data, n);
      out := Took(n);
    case Seek(f, pos) =>
      fs.FileSeek(f, pos);
      SeekDoes(a, f, pos);
    case Deny(f) =>
      fs.FileDenyWrite(f);
      if a.files[f].denying { DenySame(a, f); } else { DenyDoes(a, fs.St(), f, true); }
    case Allow(f) =>
      fs.FileAllowWrite(f);
      if a.files[f].denying { DenyDoes(a, fs.St(), f, false); } else { DenySame(a, f); }
  }

  lemma NamesAre(st: State)
    ensures Model(st).names == Directory(st.bytes)
  {
  }

  /** A call by name. */
  method ByName(fs: FileSystem, op: Op) returns (out: Outcome)
    requires fs.Valid() && fs.raw == multiset{} && IsCall(op) && (op.Create? || op.Open? || op.Remove?)
    modifies fs, fs.dev, fs.freeMap.bits
    ensures fs.Valid() && fs.raw == multiset{} && Does(old(Model(fs.St())), op, out, Model(fs.St()))
  {
    hide Inv, Made, HasOpened, HasRemoved, Model;
    ghost var a := fs.St();
    match op
    case Create(name, size) =>
      var ok := fs.Create(name, size);
      IdsUnseen(a, fs.nextId);
      hide Does;
      CreateDoes(a.(nextId := fs.nextId), fs.St(), name, size, ok);
      out := if ok then Ok else Failed;
    case Open(name) =>
      var f := fs.Open(name);
      NamesAre(a);
      IdsUnseen(a, fs.nextId);
      if f.Some? { OpenDoes(a, fs.St(), name, f.value); }
      out := if f.Some? then Handed(f.value) else Failed;
    case Remove(name) =>
      var ok := fs.Remove(name);
      NamesAre(a);
      IdsUnseen(a, fs.nextId);
      if ok { RemoveDoes(a, fs.St(), name); }
      out := if ok then Ok else Failed;
  }

  /** One call; a shutdown and new mount goes on with a new object for the same device. */
  method Perform(fs: FileSystem, op: Op) returns (out: Outcome, next: FileSystem)
    requires fs.Valid() && fs.raw == multiset{} && IsCall(op)
    modifies fs, fs.dev, fs.freeMap.bits
    ensures next == fs <==> !(op.Mount? && out.Ok?)
    ensures next == fs || (fresh(next) && fresh(next.freeMap) && fresh(next.freeMap.bits) && next.dev == fs.dev)
    ensures next.Valid() && next.raw == multiset{} && Does(old(Model(fs.St())), op, out, Model(next.St()))
  {
    hide Inv, Uses;
    next := fs;
    if op.Create? || op.Open? || op.Remove? {
      out := ByName(fs, op);
    } else if op.Mount? {
      NoHandles(fs.St());
      if fs.files.Keys == {fs.mapFile} {
        next := Remount(fs);
        SameModel(fs.St(), next.St());
        out := Ok;
      } else {
        out := Refused;
      }
    } else if op.f in fs.files && op.f != fs.mapFile {
      out := Use(fs, op);
    } else {
      HandlesAre(fs.St(), op.f);
      out := Refused;
    }
  }

  /** After any calls on a formatted device the file system stands for what the same calls,
      with the same results, make of the empty model; `seen` has the model's states. */
  method Run(sectors: nat, ops: seq<Op>) returns (fs: FileSystem, outs: seq<Outcome>, ghost seen: seq<Files>)
    requires 2 <= sectors < 0x1_0000_0000 && 2 + MapSectors(sectors) + 1 <= sectors
    requires forall k :: 0 <= k < |ops| ==> IsCall(ops[k])
    ensures fs.Valid() && fs.raw == multiset{}
    ensures |outs| == |ops| && |seen| == |ops| + 1 && IsRun(ops, outs, seen)
    ensures Model(fs.St()) == seen[|ops|] && View(fs.St()) == Seen(seen[|ops|])
  {
    hide Inv, Does, Model, MapSectors, IsRun, View, Seen;
    fs := Format(sectors);
    StartsEmpty(fs.St());
    outs, seen := [], [Model(fs.St())];
    RunStarts(ops);
    for k := 0 to |ops|
      invariant fresh(fs) && fresh(fs.dev) && fresh(fs.freeMap) && fresh(fs.freeMap.bits)
      invariant fs.Valid() && fs.raw == multiset{}
      invariant |outs| == k && |seen| == k + 1 && IsRun(ops[..k], outs, seen) && seen[k] == Model(fs.St())
    {
      var out;
      out, fs := Perform(fs, ops[k]);
      RunOnward(ops, k, outs, seen, out, Model(fs.St()));
      outs, seen := outs + [out], seen + [Model(fs.St())];
    }
    assert ops[..|ops|] == ops;
    SeenIsView(fs.St());
  }

  /** The calls, with these results, take the empty model through these states. */
  ghost predicate IsRun(ops: seq<Op>, outs: seq<Outcome>, seen: seq<Files>) {
    && |outs| == |ops| && |seen| == |ops| + 1 && seen[0] == EMPTY
    && forall k {:trigger ops[k]} :: 0 <= k < |ops| ==> Does(seen[k], ops[k], outs[k], seen[k + 1])
  }

  lemma RunStarts(ops: seq<Op>)
    ensures IsRun(ops[..0], [], [EMPTY])
  {
  }

  lemma RunOnward(ops: seq<Op>, k: nat, outs: seq<Outcome>, seen: seq<Files>, out: Outcome, next: Files)
    requires k < |ops| && IsRun(ops[..k], outs, seen) && |seen| == k + 1 && Does(seen[k], ops[k], out, next)
    ensures IsRun(ops[..k + 1], outs + [out], seen + [next])
  {
    hide Does;
    var o, r, s := ops[..k + 1], outs + [out], seen + [next];
    forall i | 0 <= i < k + 1 ensures Does(s[i], o[i], r[i], s[i + 1]) {
      if i < k {
        assert Does(seen[i], ops[..k][i], outs[i], seen[i + 1]);
      }
    }
  }

  lemma NoHandles(st: State)
    requires Inv(st)
    ensures Model(st).handles == map[] <==> st.files.Keys == {st.mapFile}
  {
    hide Inv, Directory, LiveIn, FileBytes;
    MapIsSystem(st);
    forall f ensures f in Model(st).handles <==> f in st.files && f != st.mapFile {
      HandlesAre(st, f);
    }
    if Model(st).handles == map[] {
      assert forall f :: f in st.files ==> f == st.mapFile;
    } else {
      var f :| f in Model(st).handles;
      assert f in st.files.Keys;
    }
  }

  lemma SameModel(a: State, b: State)
    requires Inv(a) && a.raw == multiset{} && a.files.Keys == {a.mapFile} && Inv(b) && b.raw == multiset{}
    requires b.files.Keys == {b.mapFile} && b.bytes == a.bytes
    ensures Model(a) == Model(b)
  {
    hide Inv, Directory, LiveIn, FileBytes, Named;
    OnlyNamedLive(a);
    OnlyNamedLive(b);
    NoHandles(a);
    NoHandles(b);
  }

  lemma StartsEmpty(st: State)
    requires Inv(st) && st.raw == multiset{} && st.files.Keys == {st.mapFile} && Directory(st.bytes) == map[]
    ensures Model(st) == EMPTY
  {
    hide Inv, Directory, LiveIn, FileBytes;
    OnlyNamedLive(st);
    NoHandles(st);
    assert DataIn(st.bytes, LiveIn(st)) == map[];
  }
}
