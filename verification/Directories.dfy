/** Directories: a table of 20-byte slots in an inode's bytes. */
module Directories {
  import opened Containers
  import opened Bytes
  import opened Devices

  const NAME_MAX := 14
  const SLOT_SIZE := 20

  // ---------------------------------------------------------------------- slots

  function SectorOf(e: seq<Byte>): nat
    requires |e| == SLOT_SIZE
  {
    Word(e[..4])
  }

  function NameOf(e: seq<Byte>): seq<Byte>
    requires |e| == SLOT_SIZE
  {
    CString(e[4..19])
  }

  predicate InUse(e: seq<Byte>)
    requires |e| == SLOT_SIZE
  {
    e[19] != 0
  }

  /** A file name: between one and NAME_MAX characters, none of them null. */
  predicate IsName(s: seq<Byte>) {
    0 < |s| <= NAME_MAX && forall i :: 0 <= i < |s| ==> s[i] != 0
  }

  /** A slot filled in over what it held: characters after the name's null stay. */
  function Filled(e: seq<Byte>, name: seq<Byte>, sector: nat): (r: seq<Byte>)
    requires |e| == SLOT_SIZE && |name| <= NAME_MAX && sector < 0x1_0000_0000
    ensures |r| == SLOT_SIZE
  {
    Patch(Patch(Patch(e, 19, [1]), 4, name + [0]), 0, WordBytes(sector))
  }

  lemma FilledReads(e: seq<Byte>, name: seq<Byte>, sector: nat)
    requires |e| == SLOT_SIZE && IsName(name) && sector < 0x1_0000_0000
    ensures
      var r := Filled(e, name, sector);
      InUse(r) && NameOf(r) == name && SectorOf(r) == sector
  {
    var r := Filled(e, name, sector);
    var f := Patch(Patch(e, 19, [1]), 4, name + [0]);
    assert r[..4] == WordBytes(sector);
    WordRoundTrip(sector);
    var field := r[4..19];
    assert forall i :: 0 <= i < |name| + 1 ==> field[i] == f[4 + i] && f[4 + i] == (name + [0])[i];
    assert field[..|name|] == name;
    CStringIs(field, name);
  }

  // ----------------------------------------------------------------------- rows

  /** What a slot stands for. */
  datatype Row = Free | Used(name: seq<Byte>, sector: nat)

  /** Names in use are proper and distinct. */
  ghost predicate RowsOk(rows: seq<Row>) {
    && (forall k :: 0 <= k < |rows| && rows[k].Used? ==> IsName(rows[k].name))
    && (forall j, k :: 0 <= j < k < |rows| && rows[j].Used? && rows[k].Used? ==> rows[j].name != rows[k].name)
  }

  /** Row k is in use under this name. */
  predicate Holds(rows: seq<Row>, k: nat, name: seq<Byte>) {
    k < |rows| && rows[k].Used? && rows[k].name == name
  }

  ghost predicate Present(rows: seq<Row>, name: seq<Byte>) {
    exists k :: Holds(rows, k, name)
  }

  ghost function Names(rows: seq<Row>): set<seq<Byte>> {
    set k | 0 <= k < |rows| && rows[k].Used? :: rows[k].name
  }

  ghost function RowFor(rows: seq<Row>, name: seq<Byte>): (k: nat)
    requires Present(rows, name)
    ensures Holds(rows, k, name)
  {
    var k :| Holds(rows, k, name);
    k
  }

  lemma NamesArePresent(rows: seq<Row>, name: seq<Byte>)
    ensures name in Names(rows) <==> Present(rows, name)
  {
    if name in Names(rows) {
      var k :| 0 <= k < |rows| && rows[k].Used? && rows[k].name == name;
      assert Holds(rows, k, name);
    }
  }

  /** What the directory stands for: the sector of each name. */
  ghost function Entries(rows: seq<Row>): (m: map<seq<Byte>, nat>)
    ensures m.Keys == Names(rows)
  {
    map name | name in Names(rows) :: NamesArePresent(rows, name); rows[RowFor(rows, name)].sector
  }

  lemma EntryAt(rows: seq<Row>, k: nat)
    requires RowsOk(rows) && k < |rows| && rows[k].Used?
    ensures rows[k].name in Entries(rows) && Entries(rows)[rows[k].name] == rows[k].sector
  {
    var name := rows[k].name;
    assert Holds(rows, k, name);
    NamesArePresent(rows, name);
    var j := RowFor(rows, name);
    assert Holds(rows, j, name);
  }

  lemma SameEntry(rows: seq<Row>, next: seq<Row>, k: nat, name: seq<Byte>)
    requires RowsOk(rows) && RowsOk(next) && k < |rows| == |next| && next == rows[k := next[k]]
    requires name in Entries(rows) && !Holds(rows, k, name) && !Holds(next, k, name)
    ensures name in Entries(next) && Entries(next)[name] == Entries(rows)[name]
  {
    NamesArePresent(rows, name);
    var j := RowFor(rows, name);
    EntryAt(rows, j);
    EntryAt(next, j);
  }

  /** Filling a free row under a new name adds just that entry. */
  lemma FillAdds(rows: seq<Row>, k: nat, name: seq<Byte>, sector: nat)
    requires RowsOk(rows) && k < |rows| && rows[k].Free?
    requires IsName(name) && !Present(rows, name)
    ensures RowsOk(rows[k := Used(name, sector)])
    ensures Entries(rows[k := Used(name, sector)]) == Entries(rows)[name := sector]
  {
    var next := rows[k := Used(name, sector)];
    forall j | 0 <= j < |rows| && rows[j].Used? ensures rows[j].name != name {
      assert !Holds(rows, j, name);
    }
    EntryAt(next, k);
    var l, r := Entries(next), Entries(rows)[name := sector];
    forall n | n in r ensures n in l && l[n] == r[n] {
      if n != name { SameEntry(rows, next, k, n); }
    }
    forall n | n in l ensures n in r {
      NamesArePresent(next, n);
      var j := RowFor(next, n);
      if j != k { EntryAt(rows, j); }
    }
  }

  /** Freeing a row takes just its entry away. */
  lemma FreeRemoves(rows: seq<Row>, k: nat)
    requires RowsOk(rows) && k < |rows| && rows[k].Used?
    ensures RowsOk(rows[k := Free])
    ensures Entries(rows[k := Free]) == Entries(rows) - {rows[k].name}
  {
    var next := rows[k := Free];
    var name := rows[k].name;
    var l, r := Entries(next), Entries(rows) - {name};
    forall n | n in r ensures n in l && l[n] == r[n] {
      SameEntry(rows, next, k, n);
    }
    forall n | n in l ensures n in r {
      NamesArePresent(next, n);
      var j := RowFor(next, n);
      assert j != k;
      EntryAt(rows, j);
    }
  }

  // ---------------------------------------------------------------------- bytes

  function Slots(c: seq<Byte>): nat { |c| / SLOT_SIZE }

  function Slot(c: seq<Byte>, k: nat): (e: seq<Byte>)
    requires SLOT_SIZE * k + SLOT_SIZE <= |c|
    ensures |e| == SLOT_SIZE
  {
    c[SLOT_SIZE * k..SLOT_SIZE * k + SLOT_SIZE]
  }

  function RowOf(e: seq<Byte>): Row
    requires |e| == SLOT_SIZE
  {
    if InUse(e) then Used(NameOf(e), SectorOf(e)) else Free
  }

  /** The table in a directory's bytes. */
  function Rows(c: seq<Byte>): (rows: seq<Row>)
    ensures |rows| == Slots(c)
  {
    seq(Slots(c), k requires 0 <= k < Slots(c) => RowOf(Slot(c, k)))
  }

  /** A directory holds whole slots, with proper and distinct names. */
  ghost predicate DirOk(c: seq<Byte>) {
    |c| % SLOT_SIZE == 0 && RowsOk(Rows(c))
  }

  /** Rewriting one slot changes that row only. */
  lemma SlotPatched(c: seq<Byte>, k: nat, e: seq<Byte>)
    requires k < Slots(c) && |e| == SLOT_SIZE
    ensures Rows(Patch(c, SLOT_SIZE * k, e)) == Rows(c)[k := RowOf(e)]
  {
    var d := Patch(c, SLOT_SIZE * k, e);
    forall j | 0 <= j < Slots(c) ensures Slot(d, j) == if j == k then e else Slot(c, j) {
      if j != k {
        PatchMisses(c, SLOT_SIZE * k, e, SLOT_SIZE * j, SLOT_SIZE * j + SLOT_SIZE);
      }
    }
    var l, r := Rows(d), Rows(c)[k := RowOf(e)];
    forall j | 0 <= j < Slots(c) ensures l[j] == r[j] {
      assert l[j] == RowOf(Slot(d, j));
    }
  }

  // ----------------------------------------------------------------- operations

  /** The directory at this place on the device is well formed. */
  ghost predicate DirAt(bytes: seq<Byte>, start: nat, length: nat) {
    OnDevice(bytes, start, length) && SECTOR_SIZE * start + length <= |bytes| && DirOk(Content(bytes, start, length))
  }

  ghost function RowsAt(bytes: seq<Byte>, start: nat, length: nat): seq<Row>
    requires SECTOR_SIZE * start + length <= |bytes|
  {
    Rows(Content(bytes, start, length))
  }

  lemma SlotBounds(length: nat, k: nat)
    requires length % SLOT_SIZE == 0
    ensures SLOT_SIZE * k + SLOT_SIZE <= length <==> k < length / SLOT_SIZE
    ensures SLOT_SIZE * k < length <==> k < length / SLOT_SIZE
  {
  }

  /** Reads slot k whole, just when there is one. */
  method ReadSlot(dev: Device, start: nat, length: nat, e: array<Byte>, k: nat) returns (whole: bool)
    requires DirAt(dev.bytes, start, length) && e.Length == SLOT_SIZE
    modifies e
    ensures whole <==> k < |RowsAt(dev.bytes, start, length)|
    ensures whole ==> SLOT_SIZE * k + SLOT_SIZE <= length && e[..] == Slot(Content(dev.bytes, start, length), k)
    ensures whole ==> RowsAt(dev.bytes, start, length)[k] == RowOf(e[..])
  {
    SlotBounds(length, k);
    var n := ReadAt(dev, start, length, e, SLOT_SIZE, SLOT_SIZE * k);
    whole := n == SLOT_SIZE;
    if whole {
      assert e[..] == Slot(Content(dev.bytes, start, length), k);
    }
  }

  /** Finds the slot in use under a name, if any. */
  method Lookup(dev: Device, start: nat, length: nat, name: seq<Byte>) returns (found: Option<nat>, e: array<Byte>)
    requires DirAt(dev.bytes, start, length)
    ensures fresh(e) && e.Length == SLOT_SIZE
    ensures found.Some? ==>
      && Holds(RowsAt(dev.bytes, start, length), found.value, name)
      && SLOT_SIZE * found.value + SLOT_SIZE <= length
      && e[..] == Slot(Content(dev.bytes, start, length), found.value)
    ensures found.None? ==> !Present(RowsAt(dev.bytes, start, length), name)
  {
    ghost var rows := RowsAt(dev.bytes, start, length);
    e := new Byte[SLOT_SIZE];
    var k := 0;
    var whole := ReadSlot(dev, start, length, e, k);
    while whole
      invariant fresh(e) && e.Length == SLOT_SIZE && k <= |rows|
      invariant whole <==> k < |rows|
      invariant whole ==>
        && SLOT_SIZE * k + SLOT_SIZE <= length && e[..] == Slot(Content(dev.bytes, start, length), k)
        && rows[k] == RowOf(e[..])
      invariant forall j :: 0 <= j < k ==> !Holds(rows, j, name)
      decreases |rows| - k
    {
      if e[19] != 0 && CString(e[4..19]) == name {
        return Some(k), e;
      }
      k := k + 1;
      whole := ReadSlot(dev, start, length, e, k);
    }
    found := None;
  }

  /** The first free slot, or the end of the table. */
  method FindFree(dev: Device, start: nat, length: nat) returns (k: nat, e: array<Byte>)
    requires DirAt(dev.bytes, start, length)
    ensures fresh(e) && e.Length == SLOT_SIZE
    ensures k <= |RowsAt(dev.bytes, start, length)|
    ensures forall j :: 0 <= j < k ==> RowsAt(dev.bytes, start, length)[j].Used?
    ensures k < |RowsAt(dev.bytes, start, length)| ==>
      && RowsAt(dev.bytes, start, length)[k].Free?
      && SLOT_SIZE * k + SLOT_SIZE <= length && e[..] == Slot(Content(dev.bytes, start, length), k)
  {
    ghost var rows := RowsAt(dev.bytes, start, length);
    e := new Byte[SLOT_SIZE];
    k := 0;
    var whole := ReadSlot(dev, start, length, e, k);
    while whole
      invariant fresh(e) && e.Length == SLOT_SIZE && k <= |rows|
      invariant whole <==> k < |rows|
      invariant whole ==>
        && SLOT_SIZE * k + SLOT_SIZE <= length && e[..] == Slot(Content(dev.bytes, start, length), k)
        && rows[k] == RowOf(e[..])
      invariant forall j :: 0 <= j < k ==> rows[j].Used?
      decreases |rows| - k
    {
      if e[19] == 0 {
        return;
      }
      k := k + 1;
      whole := ReadSlot(dev, start, length, e, k);
    }
  }

  /** Everything outside the range is as before. */
  ghost predicate OnlyWithin(was: seq<Byte>, now: seq<Byte>, lo: nat, hi: nat) {
    && |now| == |was|
    && forall i {:trigger now[i]} :: 0 <= i < |was| && !(lo <= i < hi) ==> now[i] == was[i]
  }

  /** Rewrites slot k. */
  method WriteSlot(dev: Device, start: nat, length: nat, denied: bool, e: seq<Byte>, k: nat) returns (whole: bool)
    requires DirAt(dev.bytes, start, length) && |e| == SLOT_SIZE
    modifies dev
    ensures |dev.bytes| == |old(dev.bytes)|
    ensures whole <==> !denied && k < |RowsAt(old(dev.bytes), start, length)|
    ensures !whole ==> dev.bytes == old(dev.bytes)
    ensures OnlyWithin(old(dev.bytes), dev.bytes, SECTOR_SIZE * start, SECTOR_SIZE * start + length)
    ensures whole ==> RowsAt(dev.bytes, start, length) == RowsAt(old(dev.bytes), start, length)[k := RowOf(e)]
  {
    SlotBounds(length, k);
    var n := WriteAt(dev, start, length, denied, e, SLOT_SIZE, SLOT_SIZE * k);
    whole := n == SLOT_SIZE;
    if whole {
      assert e[..SLOT_SIZE] == e;
      ghost var base := SECTOR_SIZE * start;
      PatchInside(old(dev.bytes), base + SLOT_SIZE * k, e, base, base + length);
      SlotPatched(Content(old(dev.bytes), start, length), k, e);
    }
  }

  /** Adds an entry. It fails, changing nothing, just for an empty, over-long
      or present name, a full table, or denied writes. */
  method Add(dev: Device, start: nat, length: nat, denied: bool, name: seq<Byte>, sector: nat) returns (ok: bool)
    requires DirAt(dev.bytes, start, length) && sector < 0x1_0000_0000
    requires forall i :: 0 <= i < |name| ==> name[i] != 0
    modifies dev
    ensures DirAt(dev.bytes, start, length) && |dev.bytes| == |old(dev.bytes)|
    ensures OnlyWithin(old(dev.bytes), dev.bytes, SECTOR_SIZE * start, SECTOR_SIZE * start + length)
    ensures ok <==>
      var rows := RowsAt(old(dev.bytes), start, length);
      && 0 < |name| <= NAME_MAX && name !in Entries(rows) && !denied
      && exists k :: 0 <= k < |rows| && rows[k].Free?
    ensures ok ==>
      Entries(RowsAt(dev.bytes, start, length)) == Entries(RowsAt(old(dev.bytes), start, length))[name := sector]
    ensures !ok ==> dev.bytes == old(dev.bytes)
  {
    ghost var rows := RowsAt(dev.bytes, start, length);
    NamesArePresent(rows, name);
    if |name| == 0 || |name| > NAME_MAX {
      return false;
    }
    var found, _ := Lookup(dev, start, length, name);
    if found.Some? {
      return false;
    }
    var k, e := FindFree(dev, start, length);
    var filled := Filled(e[..], name, sector);
    FilledReads(e[..], name, sector);
    ok := WriteSlot(dev, start, length, denied, filled, k);
    if ok {
      FillAdds(rows, k, name, sector);
    }
  }

  /** Clears the in-use mark of slot k, taking its entry away. */
  method Erase(dev: Device, start: nat, length: nat, denied: bool, e: seq<Byte>, k: nat) returns (ok: bool)
    requires DirAt(dev.bytes, start, length) && |e| == SLOT_SIZE
    requires k < |RowsAt(dev.bytes, start, length)| && RowsAt(dev.bytes, start, length)[k].Used?
    modifies dev
    ensures DirAt(dev.bytes, start, length) && |dev.bytes| == |old(dev.bytes)|
    ensures OnlyWithin(old(dev.bytes), dev.bytes, SECTOR_SIZE * start, SECTOR_SIZE * start + length)
    ensures ok <==> !denied
    ensures ok ==>
      var rows := RowsAt(old(dev.bytes), start, length);
      Entries(RowsAt(dev.bytes, start, length)) == Entries(rows) - {rows[k].name}
    ensures !ok ==> dev.bytes == old(dev.bytes)
  {
    FreeRemoves(RowsAt(dev.bytes, start, length), k);
    ok := WriteSlot(dev, start, length, denied, Patch(e, 19, [0]), k);
  }

  // -------------------------------------------------------------------- readdir

  /** The names of the rows from k on. */
  ghost function NamesFrom(rows: seq<Row>, k: nat): seq<seq<Byte>>
    decreases |rows| - k
  {
    if k >= |rows| then [] else
      (if rows[k].Used? then [rows[k].name] else []) + NamesFrom(rows, k + 1)
  }

  /** The next name from slot k on, and the slot after it. */
  method ReadDir(dev: Device, start: nat, length: nat, k: nat) returns (name: Option<seq<Byte>>, next: nat)
    requires DirAt(dev.bytes, start, length) && k <= |RowsAt(dev.bytes, start, length)|
    ensures k <= next <= |RowsAt(dev.bytes, start, length)|
    ensures name.Some? ==> k < next
    ensures
      var rows := RowsAt(dev.bytes, start, length);
      if name.None? then NamesFrom(rows, k) == [] else NamesFrom(rows, k) == [name.value] + NamesFrom(rows, next)
  {
    ghost var rows := RowsAt(dev.bytes, start, length);
    var e := new Byte[SLOT_SIZE];
    next := k;
    var whole := ReadSlot(dev, start, length, e, next);
    while whole
      invariant fresh(e) && k <= next <= |rows|
      invariant whole <==> next < |rows|
      invariant whole ==> rows[next] == RowOf(e[..])
      invariant NamesFrom(rows, next) == NamesFrom(rows, k)
      decreases |rows| - next
    {
      next := next + 1;
      if e[19] != 0 {
        return Some(CString(e[4..19])), next;
      }
      whole := ReadSlot(dev, start, length, e, next);
    }
    name := None;
  }

  lemma {:induction false} NamesFromAre(rows: seq<Row>, k: nat)
    requires RowsOk(rows) && k <= |rows|
    ensures forall n :: n in NamesFrom(rows, k) <==> exists j {:trigger rows[j]} :: k <= j < |rows| && rows[j].Used? && rows[j].name == n
    ensures Distinct(NamesFrom(rows, k))
    decreases |rows| - k
  {
    if k < |rows| {
      NamesFromAre(rows, k + 1);
      if rows[k].Used? {
        ConsDistinct(rows[k].name, NamesFrom(rows, k + 1));
      }
    }
  }

  /** Reading a directory to the end gives each of its names once. */
  method ReadAll(dev: Device, start: nat, length: nat) returns (names: seq<seq<Byte>>)
    requires DirAt(dev.bytes, start, length)
    ensures Distinct(names)
    ensures forall n :: n in names <==> n in Entries(RowsAt(dev.bytes, start, length))
  {
    hide Entries, NamesFrom;
    ghost var rows := RowsAt(dev.bytes, start, length);
    names := [];
    var name, k := ReadDir(dev, start, length, 0);
    while name.Some?
      invariant k <= |rows|
      invariant names + (if name.Some? then [name.value] + NamesFrom(rows, k) else []) == NamesFrom(rows, 0)
      decreases name.Some?, |rows| - k
    {
      names := names + [name.value];
      name, k := ReadDir(dev, start, length, k);
    }
    NamesFromAre(rows, 0);
    assert names == NamesFrom(rows, 0);
  }
}
