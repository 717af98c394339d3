/** Two-level page tables: a directory of tables of entries, each a frame number
    and flags in one word. */
module PageTables {
  import opened Containers
  import opened Bytes

  const TABLE: nat := 1024
  const PHYS_BASE: nat := 0xC000_0000
  const WORD: nat := 0x1_0000_0000

  /** The pages and the directory entries below PHYS_BASE. */
  const USER_PAGES: nat := 0xC_0000
  const USER_TABLES: nat := 768

  const PTE_P: nat := 1
  const PTE_W: nat := 2
  const PTE_U: nat := 4

  // -------------------------------------------------------------------- entries

  /** An entry for a frame: its address with flag bits below it. */
  function EntryFor(frame: nat, writable: bool): (e: nat)
    ensures e != 0 && Present(e) && FrameOf(e) == frame && Writable(e) == writable && e / 4 % 2 == 1
  {
    PGSIZE * frame + PTE_U + PTE_P + (if writable then PTE_W else 0)
  }

  predicate Present(e: nat) { e % 2 == 1 }

  predicate Writable(e: nat) { e / 2 % 2 == 1 }

  function FrameOf(e: nat): nat { e / PGSIZE }

  // --------------------------------------------------------------------- memory

  /** Physical memory, by frame number: page tables, data pages and the frames still
      free; and the frame of the page directory. */
  datatype Memory = Memory(
    tables: map<nat, seq<nat>>, pages: map<nat, seq<Byte>>, directory: nat, free: seq<nat>)

  /** The directory's entry for table i. */
  function Pde(m: Memory, i: nat): nat {
    if m.directory in m.tables && i < |m.tables[m.directory]| then m.tables[m.directory][i] else 0
  }

  /** The entry for user page v, or 0 when there is none. */
  function Pte(m: Memory, v: nat): nat {
    var pde := Pde(m, v / TABLE);
    if pde != 0 && FrameOf(pde) in m.tables && |m.tables[FrameOf(pde)]| == TABLE
    then m.tables[FrameOf(pde)][v % TABLE] else 0
  }

  /** The byte the processor finds at a user address. */
  function UserByte(m: Memory, va: nat): Option<Byte> {
    var e := Pte(m, va / PGSIZE);
    if Present(e) && FrameOf(e) in m.pages && |m.pages[FrameOf(e)]| == PGSIZE
    then Some(m.pages[FrameOf(e)][va % PGSIZE]) else None
  }

  /** A frame with one of the kernel's page tables, which all directories share and which
      `tables` leaves out. */
  ghost predicate KernelFrame(m: Memory, f: nat) {
    exists i {:trigger Pde(m, i)} :: USER_TABLES <= i < TABLE && Pde(m, i) != 0 && FrameOf(Pde(m, i)) == f
  }

  /** A frame that nothing here refers to. */
  ghost predicate Unused(m: Memory, f: nat) {
    f !in m.tables && f !in m.pages && f !in m.free && !KernelFrame(m, f)
  }

  /** The frames that hold a table or a page of data, or are free. */
  ghost function Frames(m: Memory): set<nat> { m.tables.Keys + m.pages.Keys + set f | f in m.free }

  /** A frame taken from the free ones and made a table is not lost. */
  lemma TableFromFree(m: Memory, n: Memory, f: nat)
    requires m.free == [f] + n.free && n.pages == m.pages && n.tables.Keys == m.tables.Keys + {f}
    ensures Frames(n) == Frames(m)
  {
    assert forall g :: g in m.free <==> g == f || g in n.free;
  }

  /** User tables are tables of their own; what they map are data pages; free frames are
      neither, and no frame is the kernel's. */
  ghost predicate Valid(m: Memory) {
    && m.directory in m.tables && (forall f :: f in m.tables ==> |m.tables[f]| == TABLE)
    && (forall f :: f in m.pages ==> |m.pages[f]| == PGSIZE)
    && (forall i {:trigger Pde(m, i)} :: 0 <= i < USER_TABLES && Pde(m, i) != 0 ==>
          Present(Pde(m, i)) && FrameOf(Pde(m, i)) in m.tables && FrameOf(Pde(m, i)) != m.directory)
    && (forall i, j {:trigger Pde(m, i), Pde(m, j)} ::
          0 <= i < j < USER_TABLES && Pde(m, i) != 0 && Pde(m, j) != 0 ==> FrameOf(Pde(m, i)) != FrameOf(Pde(m, j)))
    && (forall v {:trigger Pte(m, v)} :: 0 <= v < USER_PAGES && Present(Pte(m, v)) ==> FrameOf(Pte(m, v)) in m.pages)
    && Distinct(m.free)
    && (forall f :: f in m.free ==> f !in m.tables && f !in m.pages)
    && (forall f {:trigger KernelFrame(m, f)} :: f in m.tables || f in m.free ==> !KernelFrame(m, f))
  }

  /** The kernel's tables are not among these, so no entry is found for its pages. */
  lemma KernelPte(m: Memory, v: nat)
    requires Valid(m) && v >= USER_PAGES
    ensures Pte(m, v) == 0
  {
    var i := v / TABLE;
    if i < TABLE && Pde(m, i) != 0 {
      assert KernelFrame(m, FrameOf(Pde(m, i)));
    }
  }

  /** The kernel's part of the directory did not change. */
  ghost predicate SameKernel(m: Memory, n: Memory) {
    forall i {:trigger Pde(n, i)} :: i >= USER_TABLES ==> Pde(n, i) == Pde(m, i)
  }

  lemma SameKernelFrames(m: Memory, n: Memory, f: nat)
    requires SameKernel(m, n)
    ensures KernelFrame(n, f) <==> KernelFrame(m, f)
  {
    if KernelFrame(m, f) {
      var i :| USER_TABLES <= i < TABLE && Pde(m, i) != 0 && FrameOf(Pde(m, i)) == f;
      assert Pde(n, i) == Pde(m, i);
    }
  }

  /** A table page was added for directory entry i. */
  function WithTable(m: Memory, i: nat, f: nat): Memory
    requires m.directory in m.tables && i < |m.tables[m.directory]|
  {
    var row: seq<nat> := m.tables[m.directory][i := EntryFor(f, true)];
    m.(tables := m.tables[f := seq(TABLE, _ => 0)][m.directory := row])
  }

  lemma TableAddedPdes(m: Memory, i: nat, f: nat)
    requires Valid(m) && i < USER_TABLES && f !in m.tables
    ensures forall j {:trigger Pde(WithTable(m, i, f), j)} ::
      Pde(WithTable(m, i, f), j) == if j == i then EntryFor(f, true) else Pde(m, j)
  {
  }

  lemma TableAddedPte(m: Memory, i: nat, f: nat, v: nat)
    requires Valid(m) && i < USER_TABLES && Pde(m, i) == 0 && f !in m.tables && v < USER_PAGES
    ensures Pte(WithTable(m, i, f), v) == Pte(m, v)
  {
    PteIndex(v);
    TableAddedPdes(m, i, f);
    assert Pde(WithTable(m, i, f), v / TABLE) == if v / TABLE == i then EntryFor(f, true) else Pde(m, v / TABLE);
  }

  lemma TableAdded(m: Memory, i: nat, f: nat)
    requires Valid(m) && i < USER_TABLES && Pde(m, i) == 0 && Unused(m, f)
    ensures Valid(WithTable(m, i, f)) && SameKernel(m, WithTable(m, i, f))
    ensures Pde(WithTable(m, i, f), i) == EntryFor(f, true)
    ensures forall v: nat {:trigger Pte(WithTable(m, i, f), v)} :: Pte(WithTable(m, i, f), v) == Pte(m, v)
  {
    var n := WithTable(m, i, f);
    TableAddedPdes(m, i, f);
    forall v | 0 <= v < USER_PAGES ensures Pte(n, v) == Pte(m, v) {
      TableAddedPte(m, i, f, v);
    }
    forall g ensures KernelFrame(n, g) <==> KernelFrame(m, g) {
      SameKernelFrames(m, n, g);
    }
    assert Valid(n) by { hide Pte, KernelFrame; }
    forall v: nat | v >= USER_PAGES ensures Pte(n, v) == Pte(m, v) {
      KernelPte(m, v);
      KernelPte(n, v);
    }
  }

  lemma PteIndex(v: nat)
    requires v < USER_PAGES
    ensures v / TABLE < USER_TABLES && v % TABLE < TABLE
  {
  }

  /** The entry of user page v was set. */
  function WithEntry(m: Memory, v: nat, e: nat): Memory
    requires FrameOf(Pde(m, v / TABLE)) in m.tables && |m.tables[FrameOf(Pde(m, v / TABLE))]| == TABLE
  {
    var t := FrameOf(Pde(m, v / TABLE));
    var row: seq<nat> := m.tables[t][v % TABLE := e];
    m.(tables := m.tables[t := row])
  }

  lemma SamePage(u: nat, v: nat)
    requires u / TABLE == v / TABLE && u % TABLE == v % TABLE
    ensures u == v
  {
  }

  lemma EntrySetPdes(m: Memory, v: nat, e: nat)
    requires Valid(m) && v < USER_PAGES && Pde(m, v / TABLE) != 0
    ensures v / TABLE < USER_TABLES && FrameOf(Pde(m, v / TABLE)) in m.tables && FrameOf(Pde(m, v / TABLE)) != m.directory
    ensures forall j {:trigger Pde(WithEntry(m, v, e), j)} :: Pde(WithEntry(m, v, e), j) == Pde(m, j)
  {
    PteIndex(v);
  }

  lemma EntrySet(m: Memory, v: nat, e: nat)
    requires Valid(m) && v < USER_PAGES && Pde(m, v / TABLE) != 0 && (Present(e) ==> FrameOf(e) in m.pages)
    ensures v / TABLE < USER_TABLES && FrameOf(Pde(m, v / TABLE)) in m.tables
    ensures Valid(WithEntry(m, v, e)) && Pte(WithEntry(m, v, e), v) == e && SameKernel(m, WithEntry(m, v, e))
    ensures forall u: nat {:trigger Pte(WithEntry(m, v, e), u)} :: u != v ==> Pte(WithEntry(m, v, e), u) == Pte(m, u)
  {
    PteIndex(v);
    var n := WithEntry(m, v, e);
    EntrySetPdes(m, v, e);
    forall u | 0 <= u < USER_PAGES && u != v ensures Pte(n, u) == Pte(m, u) {
      PteIndex(u);
      EntryElsewhere(m, u, v, e);
    }
    assert Pde(n, v / TABLE) == Pde(m, v / TABLE);
    assert Pte(n, v) == e;
    forall g ensures KernelFrame(n, g) <==> KernelFrame(m, g) {
      SameKernelFrames(m, n, g);
    }
    assert Valid(n) by { hide Pte, KernelFrame; }
    forall u: nat | u >= USER_PAGES ensures Pte(n, u) == Pte(m, u) {
      KernelPte(m, u);
      KernelPte(n, u);
    }
  }

  lemma EntryElsewhere(m: Memory, u: nat, v: nat, e: nat)
    requires Valid(m) && u < USER_PAGES && v < USER_PAGES && u != v && Pde(m, v / TABLE) != 0
    requires v / TABLE < USER_TABLES && u / TABLE < USER_TABLES && FrameOf(Pde(m, v / TABLE)) in m.tables
    requires Pde(WithEntry(m, v, e), u / TABLE) == Pde(m, u / TABLE)
    ensures Pte(WithEntry(m, v, e), u) == Pte(m, u)
  {
    if u / TABLE == v / TABLE && u % TABLE == v % TABLE {
      SamePage(u, v);
    }
  }

  // ------------------------------------------------------------- address spaces

  /** Page v is newly mapped to frame f; every other page is as it was. */
  ghost predicate Maps(m: Memory, n: Memory, v: nat, f: nat, writable: bool) {
    && Pte(n, v) == EntryFor(f, writable) && n.pages == m.pages && SameKernel(m, n)
    && forall u: nat {:trigger Pte(n, u)} :: u != v ==> Pte(n, u) == Pte(m, u)
  }

  /** No page's mapping or contents changed. */
  ghost predicate SameView(m: Memory, n: Memory) {
    n.pages == m.pages && SameKernel(m, n) && forall u: nat {:trigger Pte(n, u)} :: Pte(n, u) == Pte(m, u)
  }

  class AddressSpace {
    const directory: nat
    var tables: map<nat, seq<nat>>
    var pages: map<nat, seq<Byte>>
    var free: seq<nat>

    ghost function Mem(): Memory
      reads this
    {
      Memory(tables, pages, directory, free)
    }

    ghost predicate Ok()
      reads this
    {
      Valid(Mem())
    }

    /** A new directory: the kernel's entries, and none below PHYS_BASE. */
    constructor (directory: nat, kernel: seq<nat>, free: seq<nat>)
      requires |kernel| == TABLE - USER_TABLES && Distinct(free) && directory !in free
      requires forall e :: e in kernel && e != 0 ==> FrameOf(e) != directory && FrameOf(e) !in free
      ensures Ok() && pages == map[] && forall v :: 0 <= v < USER_PAGES ==> Pte(Mem(), v) == 0
    {
      this.directory := directory;
      tables := map[directory := seq(USER_TABLES, _ => 0) + kernel];
      pages := map[];
      this.free := free;
      new;
      forall v | 0 <= v < USER_PAGES ensures Pte(Mem(), v) == 0 {
        PteIndex(v);
        assert Pde(Mem(), v / TABLE) == 0;
      }
      forall i | USER_TABLES <= i < TABLE && Pde(Mem(), i) != 0
        ensures FrameOf(Pde(Mem(), i)) != directory && FrameOf(Pde(Mem(), i)) !in free
      {
        assert Pde(Mem(), i) == kernel[i - USER_TABLES];
      }
    }

    /** palloc_get_page: a frame that is in no use, if there is one. */
    method GetFrame() returns (f: Option<nat>)
      requires Ok()
      modifies this`free
      ensures Ok() && (f.None? <==> old(free) == []) && (f.None? ==> free == old(free))
      ensures f.Some? ==> Unused(Mem(), f.value) && old(free) == [f.value] + free
    {
      if free == [] {
        return None;
      }
      f := Some(free[0]);
      DropFirst(free);
      SameTables(Mem(), Mem().(free := free[1..]));
      SameKernelFrames(Mem(), Mem().(free := free[1..]), free[0]);
      free := free[1..];
    }

    /** palloc_free_page: a frame that is in no use goes back. */
    method PutFrame(f: nat)
      requires Ok() && Unused(Mem(), f)
      modifies this`free
      ensures Ok() && free == [f] + old(free)
    {
      FrameReturned(Mem(), f);
      free := [f] + free;
    }

    /** The table that holds the entry of user page v, made if that is asked for. */
    method LookupPage(v: nat, create: bool) returns (t: Option<nat>)
      requires Ok() && v < USER_PAGES
      modifies this`tables, this`free
      ensures Ok() && SameView(old(Mem()), Mem())
      ensures t.Some? ==> Pde(Mem(), v / TABLE) != 0 && t.value == FrameOf(Pde(Mem(), v / TABLE)) && t.value in tables
      ensures t.None? ==> Pde(Mem(), v / TABLE) == 0 && Mem() == old(Mem()) && (create ==> free == [])
      ensures !create ==> Mem() == old(Mem())
      ensures t.Some? <==> Pde(old(Mem()), v / TABLE) != 0 || (create && old(free) != [])
      ensures |free| + 1 >= |old(free)| && Frames(Mem()) == Frames(old(Mem()))
    {
      PteIndex(v);
      var i := v / TABLE;
      if tables[directory][i] == 0 {
        if create {
          ghost var m := Mem();
          var f := GetFrame();
          if f.None? {
            return None;
          }
          SameTables(m, Mem());
          TableAdded(Mem(), i, f.value);
          tables := tables[f.value := seq(TABLE, _ => 0)];
          var row: seq<nat> := tables[directory][i := EntryFor(f.value, true)];
          tables := tables[directory := row];
          assert Mem() == WithTable(m.(free := free), i, f.value);
          TableFromFree(m, Mem(), f.value);
        } else {
          return None;
        }
      }
      assert Pde(Mem(), i) == tables[directory][i];
      t := Some(FrameOf(tables[directory][i]));
    }

    /** The frame that page v is mapped to, if it is. */
    method GetPage(v: nat) returns (f: Option<nat>)
      requires Ok() && v < USER_PAGES
      modifies this`tables, this`free
      ensures Mem() == old(Mem())
      ensures f == if Present(Pte(Mem(), v)) then Some(FrameOf(Pte(Mem(), v))) else None
    {
      var t := LookupPage(v, false);
      PteIndex(v);
      if t.Some? && tables[t.value][v % TABLE] % 2 == 1 {
        f := Some(FrameOf(tables[t.value][v % TABLE]));
      } else {
        f := None;
      }
    }

    /** Maps page v, which must not be mapped yet, to a frame. It fails, changing nothing,
        just when a table is needed and no frame is left for it. */
    method SetPage(v: nat, f: nat, writable: bool) returns (ok: bool)
      requires Ok() && v < USER_PAGES && f in pages && !Present(Pte(Mem(), v))
      modifies this`tables, this`free
      ensures Ok() && (if ok then Maps(old(Mem()), Mem(), v, f, writable) else Mem() == old(Mem()))
      ensures ok <==> Pde(old(Mem()), v / TABLE) != 0 || old(free) != []
      ensures |free| + 1 >= |old(free)| && Frames(Mem()) == Frames(old(Mem()))
    {
      ghost var m := Mem();
      var t := LookupPage(v, true);
      ok := t.Some?;
      if ok {
        ghost var n := Mem();
        PteIndex(v);
        EntrySet(n, v, EntryFor(f, writable));
        var row: seq<nat> := tables[t.value][v % TABLE := EntryFor(f, writable)];
        tables := tables[t.value := row];
        assert Mem() == WithEntry(n, v, EntryFor(f, writable));
        assert Mem().tables.Keys == n.tables.Keys;
      }
    }

    /** Maps page v unless it is mapped already. */
    method InstallPage(v: nat, f: nat, writable: bool) returns (ok: bool)
      requires Ok() && v < USER_PAGES && f in pages
      modifies this`tables, this`free
      ensures Ok() && (if ok then Maps(old(Mem()), Mem(), v, f, writable) else Mem() == old(Mem()))
      ensures ok <==> !Present(Pte(old(Mem()), v)) && (Pde(old(Mem()), v / TABLE) != 0 || old(free) != [])
      ensures |free| + 1 >= |old(free)| && Frames(Mem()) == Frames(old(Mem()))
    {
      var mapped := GetPage(v);
      if mapped.Some? {
        return false;
      }
      ok := SetPage(v, f, writable);
    }
  }

  lemma FrameReturned(m: Memory, f: nat)
    requires Valid(m) && Unused(m, f)
    ensures Valid(m.(free := [f] + m.free)) && SameView(m, m.(free := [f] + m.free))
  {
    var n := m.(free := [f] + m.free);
    forall i ensures Pde(n, i) == Pde(m, i) {
    }
    forall g ensures KernelFrame(n, g) <==> KernelFrame(m, g) {
      SameKernelFrames(m, n, g);
    }
    forall v ensures Pte(n, v) == Pte(m, v) {
    }
    forall i, j | 0 <= i < j < |n.free| ensures n.free[i] != n.free[j] {
      assert n.free[j] == m.free[j - 1];
    }
  }

  lemma SameTables(m: Memory, n: Memory)
    requires Valid(m) && n == m.(free := n.free) && Distinct(n.free) && forall f :: f in n.free ==> f in m.free
    ensures Valid(n) && SameView(m, n)
    ensures forall i :: Pde(n, i) == Pde(m, i)
  {
    forall i ensures Pde(n, i) == Pde(m, i) {
    }
    forall v ensures Pte(n, v) == Pte(m, v) {
    }
    forall g ensures KernelFrame(n, g) <==> KernelFrame(m, g) {
      SameKernelFrames(m, n, g);
    }
  }
}
