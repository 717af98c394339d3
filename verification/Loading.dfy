/** Loading an ELF segment into a process's address space. */
module Loading {
  import opened Containers
  import opened Numbers
  import opened Bytes
  import opened Devices
  import opened PageTables

  /** A program header's fields, each a 32-bit word. */
  datatype Header = Header(offset: nat, vaddr: nat, filesz: nat, memsz: nat, writable: bool)

  predicate Words(h: Header) { h.offset < WORD && h.vaddr < WORD && h.filesz < WORD && h.memsz < WORD }

  predicate IsUser(va: nat) { va < PHYS_BASE }

  /** The checks on a loadable segment; sums wrap at 32 bits. */
  predicate Validate(h: Header, fileLength: nat) {
    && h.offset % PGSIZE == h.vaddr % PGSIZE
    && h.offset <= fileLength
    && h.memsz >= h.filesz
    && h.memsz != 0
    && IsUser(h.vaddr)
    && IsUser((h.vaddr + h.memsz) % WORD)
    && (h.vaddr + h.memsz) % WORD >= h.vaddr
    && h.vaddr >= PGSIZE
  }

  function RoundDown(x: nat): nat { x - x % PGSIZE }

  function RoundUp(x: nat): nat { (x + PGSIZE - 1) / PGSIZE * PGSIZE }

  /** The bytes to read from the file and the bytes to zero after them. */
  function ReadBytes(h: Header): nat { if h.filesz > 0 then h.vaddr % PGSIZE + h.filesz else 0 }

  function Span(h: Header): nat { RoundUp(h.vaddr % PGSIZE + h.memsz) }

  /** A valid segment lies in user space above page 0; the sums computed for it do not
      wrap, and its pages are whole and hold it. */
  lemma ValidIsInside(h: Header, fileLength: nat)
    requires Words(h) && Validate(h, fileLength)
    ensures PGSIZE <= h.vaddr && h.vaddr + h.memsz < PHYS_BASE
    ensures ReadBytes(h) <= Span(h) < WORD && Span(h) % PGSIZE == 0
    ensures RoundDown(h.vaddr) % PGSIZE == 0 && RoundDown(h.offset) % PGSIZE == 0
    ensures RoundDown(h.vaddr) + Span(h) <= PHYS_BASE
    ensures RoundDown(h.vaddr) + h.vaddr % PGSIZE == h.vaddr && RoundDown(h.offset) + h.vaddr % PGSIZE == h.offset
    ensures h.vaddr % PGSIZE + h.memsz <= Span(h)
  {
    RoundUpIs(h.vaddr % PGSIZE + h.memsz);
    DownUp(h.vaddr, h.memsz);
  }

  lemma RoundUpIs(x: nat)
    ensures x <= RoundUp(x) < x + PGSIZE && RoundUp(x) % PGSIZE == 0
  {
  }

  /** Rounding the end up stays within user space, whose end is a page boundary. */
  lemma DownUp(va: nat, size: nat)
    requires va + size < PHYS_BASE
    ensures RoundDown(va) + RoundUp(va % PGSIZE + size) <= PHYS_BASE && RoundDown(va) % PGSIZE == 0
  {
    var q := va / PGSIZE;
    assert va == PGSIZE * q + va % PGSIZE;
  }

  /** The checks accept just the segments that meet the rules without wrapping. */
  lemma ValidateIsExact(h: Header, fileLength: nat)
    requires Words(h)
    ensures Validate(h, fileLength) <==>
      && h.offset % PGSIZE == h.vaddr % PGSIZE && h.offset <= fileLength
      && h.filesz <= h.memsz && 0 < h.memsz && PGSIZE <= h.vaddr && h.vaddr + h.memsz < PHYS_BASE
  {
    var sum := h.vaddr + h.memsz;
    if sum >= WORD {
      assert sum % WORD == sum - WORD;
    }
  }

  // -------------------------------------------------------------------- pages

  /** Everything that was mapped still is, with the same contents. */
  ghost predicate Preserved(m: Memory, n: Memory) {
    && (forall v: nat {:trigger Pte(n, v)} {:trigger Pte(m, v)} :: Present(Pte(m, v)) ==> Pte(n, v) == Pte(m, v))
    && (forall f :: f in m.pages ==> f in n.pages && n.pages[f] == m.pages[f])
  }

  lemma PreservedOnward(a: Memory, b: Memory, c: Memory)
    requires Preserved(a, b) && Preserved(b, c)
    ensures Preserved(a, c)
  {
    forall v: nat | Present(Pte(a, v)) ensures Pte(c, v) == Pte(a, v) {
      assert Pte(b, v) == Pte(a, v);
    }
  }

  /** Earlier mappings give the same bytes. */
  lemma PreservedBytes(m: Memory, n: Memory, va: nat)
    requires Preserved(m, n) && UserByte(m, va).Some?
    ensures UserByte(n, va) == UserByte(m, va)
  {
    assert Pte(n, va / PGSIZE) == Pte(m, va / PGSIZE);
  }

  /** Only pages lo .. hi are mapped differently, and the kernel's part is the same. */
  ghost predicate OnlyWithin(m: Memory, n: Memory, lo: nat, hi: nat) {
    SameKernel(m, n) && forall u: nat {:trigger Pte(n, u)} :: !(lo <= u < hi) ==> Pte(n, u) == Pte(m, u)
  }

  lemma OnlyWithinOnward(a: Memory, b: Memory, c: Memory, lo: nat, hi: nat, v: nat)
    requires OnlyWithin(a, b, lo, hi) && OnlyWithin(b, c, v, v + 1) && lo <= v < hi
    ensures OnlyWithin(a, c, lo, hi)
  {
    forall u: nat | !(lo <= u < hi) ensures Pte(c, u) == Pte(a, u) {
      assert Pte(b, u) == Pte(a, u);
    }
    forall i | i >= USER_TABLES ensures Pde(c, i) == Pde(a, i) {
      assert Pde(b, i) == Pde(a, i);
    }
  }

  /** Page v holds these bytes. */
  ghost predicate PageHas(m: Memory, v: nat, content: seq<Byte>, writable: bool) {
    var e := Pte(m, v);
    Present(e) && FrameOf(e) in m.pages && m.pages[FrameOf(e)] == content && Writable(e) == writable && e / 4 % 2 == 1
  }

  lemma PageHasOnward(m: Memory, n: Memory, v: nat, content: seq<Byte>, writable: bool)
    requires Preserved(m, n) && PageHas(m, v, content, writable)
    ensures PageHas(n, v, content, writable)
  {
    assert Pte(n, v) == Pte(m, v);
  }

  /** A frame taken for a data page. */
  lemma PageAdded(m: Memory, f: nat, content: seq<Byte>)
    requires Valid(m) && Unused(m, f) && |content| == PGSIZE
    ensures Valid(m.(pages := m.pages[f := content])) && Preserved(m, m.(pages := m.pages[f := content]))
    ensures SameKernel(m, m.(pages := m.pages[f := content]))
    ensures forall v :: Pte(m.(pages := m.pages[f := content]), v) == Pte(m, v)
  {
    var n := m.(pages := m.pages[f := content]);
    forall i ensures Pde(n, i) == Pde(m, i) {
    }
    forall v ensures Pte(n, v) == Pte(m, v) {
    }
    forall g ensures KernelFrame(n, g) <==> KernelFrame(m, g) {
      SameKernelFrames(m, n, g);
    }
  }

  lemma PutAndTaken<T>(pages: map<nat, T>, f: nat, content: T)
    requires f !in pages
    ensures pages[f := content] - {f} == pages
  {
  }

  /** A frame taken from the free ones and filled is not lost. */
  lemma PageFromFree(m: Memory, n: Memory, f: nat)
    requires m.free == [f] + n.free && n.pages.Keys == m.pages.Keys + {f} && n.tables == m.tables
    ensures Frames(n) == Frames(m)
  {
    assert forall g :: g in m.free <==> g == f || g in n.free;
  }

  /** Fills a new page with bytes of the file and zeros, and maps it. On failure nothing has
      changed, and no frame is ever lost. */
  method LoadPage(space: AddressSpace, file: seq<Byte>, pos: nat, v: nat, readBytes: nat, writable: bool)
    returns (ok: bool)
    requires space.Ok() && v < USER_PAGES && readBytes <= PGSIZE
    modifies space
    ensures space.Ok() && Preserved(old(space.Mem()), space.Mem()) && OnlyWithin(old(space.Mem()), space.Mem(), v, v + 1)
    ensures !ok ==> space.Mem() == old(space.Mem())
    ensures Frames(space.Mem()) == Frames(old(space.Mem()))
    ensures !ok ==> |old(space.free)| < 2 || Present(Pte(old(space.Mem()), v)) || (readBytes > 0 && pos + readBytes > |file|)
    ensures ok ==> |space.free| + 2 >= |old(space.free)|
    ensures ok ==>
      && !Present(Pte(old(space.Mem()), v)) && (readBytes > 0 ==> pos + readBytes <= |file|)
      && PageHas(space.Mem(), v, Take(file, pos, readBytes) + seq(PGSIZE - readBytes, _ => 0), writable)
  {
    ghost var m := space.Mem();
    var f := space.GetFrame();
    if f.None? {
      return false;
    }
    ghost var taken := space.Mem();
    SameTables(m, taken);
    var n := Count(readBytes, |file|, pos);
    if n != readBytes {
      FrameReturned(taken, f.value);
      space.PutFrame(f.value);
      return false;
    }
    var content: seq<Byte> := Take(file, pos, readBytes) + seq(PGSIZE - readBytes, _ => 0);
    PageAdded(taken, f.value, content);
    space.pages := space.pages[f.value := content];
    assert space.Mem() == taken.(pages := taken.pages[f.value := content]);
    PageFromFree(m, space.Mem(), f.value);
    ok := space.InstallPage(v, f.value, writable);
    if !ok {
      PutAndTaken(taken.pages, f.value, content);
      space.pages := space.pages - {f.value};
      assert space.Mem() == taken;
      FrameReturned(taken, f.value);
      space.PutFrame(f.value);
    }
  }

  /** What page i of a segment is to hold: bytes of the file from `ofs` on, up to
      `readBytes` of them in all, then zeros. */
  function PageBytes(file: seq<Byte>, ofs: nat, readBytes: nat, i: nat): (c: seq<Byte>)
    ensures |c| == PGSIZE
  {
    seq(PGSIZE, j requires 0 <= j < PGSIZE =>
      if PGSIZE * i + j < readBytes && ofs + PGSIZE * i + j < |file| then file[ofs + PGSIZE * i + j] else 0)
  }

  /** The bytes read for page i, followed by zeros, are what it is to hold. */
  lemma PageBytesAre(file: seq<Byte>, ofs: nat, readBytes: nat, i: nat, pos: nat, n: nat)
    requires pos == ofs + Min(PGSIZE * i, readBytes) && n == Min(readBytes - Min(PGSIZE * i, readBytes), PGSIZE)
    requires n > 0 ==> pos + n <= |file|
    ensures Take(file, pos, n) + seq(PGSIZE - n, _ => 0) == PageBytes(file, ofs, readBytes, i)
  {
    var l: seq<Byte> := Take(file, pos, n) + seq(PGSIZE - n, _ => 0);
    var r := PageBytes(file, ofs, readBytes, i);
    forall j | 0 <= j < PGSIZE ensures l[j] == r[j] {
      if j < n { assert l[j] == file[pos + j]; }
    }
  }

  /** Pages v .. v + k of the segment are in place. */
  ghost predicate InPlace(m: Memory, v: nat, k: nat, file: seq<Byte>, ofs: nat, readBytes: nat, writable: bool) {
    forall i {:trigger PageBytes(file, ofs, readBytes, i)} ::
      0 <= i < k ==> PageHas(m, v + i, PageBytes(file, ofs, readBytes, i), writable)
  }

  lemma OneMoreInPlace(m: Memory, n: Memory, v: nat, k: nat, file: seq<Byte>, ofs: nat, readBytes: nat, writable: bool)
    requires Preserved(m, n) && InPlace(m, v, k, file, ofs, readBytes, writable)
    requires PageHas(n, v + k, PageBytes(file, ofs, readBytes, k), writable)
    ensures InPlace(n, v, k + 1, file, ofs, readBytes, writable)
  {
    forall i | 0 <= i < k + 1 ensures PageHas(n, v + i, PageBytes(file, ofs, readBytes, i), writable) {
      if i < k {
        assert PageHas(m, v + i, PageBytes(file, ofs, readBytes, i), writable);
        PageHasOnward(m, n, v + i, PageBytes(file, ofs, readBytes, i), writable);
      }
    }
  }

  lemma NothingLoaded(m: Memory, v: nat, file: seq<Byte>, ofs: nat, readBytes: nat, writable: bool)
    ensures Preserved(m, m) && OnlyWithin(m, m, v, v) && InPlace(m, v, 0, file, ofs, readBytes, writable)
  {
  }

  lemma WasUnmapped(m: Memory, n: Memory, v: nat)
    requires Preserved(m, n) && !Present(Pte(n, v))
    ensures !Present(Pte(m, v))
  {
  }

  lemma StillSame(m: Memory, n: Memory, v: nat, k: nat, u: nat)
    requires OnlyWithin(m, n, v, v + k) && u >= v + k
    ensures Pte(n, u) == Pte(m, u)
  {
  }

  lemma Wider(m: Memory, n: Memory, v: nat, k: nat, l: nat)
    requires OnlyWithin(m, n, v, v + k) && k <= l
    ensures OnlyWithin(m, n, v, v + l)
  {
  }

  /** Loads whole pages: the bytes of the file, then zeros. It fails only for lack of
      memory, of file, or of an unmapped page; either way what was mapped before stays and
      nothing else is mapped. */
  method LoadSegment(space: AddressSpace, file: seq<Byte>, ofs: nat, v: nat, readBytes: nat, zeroBytes: nat,
                     writable: bool)
    returns (ok: bool)
    requires space.Ok() && (readBytes + zeroBytes) % PGSIZE == 0 && PGSIZE * v + readBytes + zeroBytes <= PHYS_BASE
    modifies space
    ensures space.Ok() && Preserved(old(space.Mem()), space.Mem())
    ensures OnlyWithin(old(space.Mem()), space.Mem(), v, v + (readBytes + zeroBytes) / PGSIZE)
    ensures Frames(space.Mem()) == Frames(old(space.Mem()))
    ensures ok ==>
      && (readBytes > 0 ==> ofs + readBytes <= |file|)
      && InPlace(space.Mem(), v, (readBytes + zeroBytes) / PGSIZE, file, ofs, readBytes, writable)
    ensures ok ==> forall u :: v <= u < v + (readBytes + zeroBytes) / PGSIZE ==> !Present(Pte(old(space.Mem()), u))
    ensures !ok ==>
      var n := (readBytes + zeroBytes) / PGSIZE;
      || |old(space.free)| < 2 * n || (readBytes > 0 && ofs + readBytes > |file|)
      || exists u :: v <= u < v + n && Present(Pte(old(space.Mem()), u))
  {
    hide Preserved, Valid, InPlace, PageHas, PageBytes, Pte, OnlyWithin, SameView, Frames;
    ghost var m := space.Mem();
    ghost var total := (readBytes + zeroBytes) / PGSIZE;
    NothingLoaded(m, v, file, ofs, readBytes, writable);
    var left, zeros, page, pos := readBytes, zeroBytes, v, ofs;
    ghost var k := 0;
    while left > 0 || zeros > 0
      invariant space.Ok() && Preserved(m, space.Mem()) && Frames(space.Mem()) == Frames(m)
      invariant k <= total && page == v + k && left + zeros == PGSIZE * (total - k)
      invariant left == readBytes - Min(PGSIZE * k, readBytes) && pos == ofs + Min(PGSIZE * k, readBytes)
      invariant pos > ofs ==> pos <= |file|
      invariant |space.free| + 2 * k >= |old(space.free)|
      invariant OnlyWithin(m, space.Mem(), v, v + k)
      invariant InPlace(space.Mem(), v, k, file, ofs, readBytes, writable)
      invariant forall u :: v <= u < v + k ==> !Present(Pte(m, u))
      decreases total - k
    {
      var pageRead := if left < PGSIZE then left else PGSIZE;
      var pageZero := PGSIZE - pageRead;
      ghost var before := space.Mem();
      StillSame(m, before, v, k, page);
      ok := LoadPage(space, file, pos, page, pageRead, writable);
      PreservedOnward(m, before, space.Mem());
      Wider(m, before, v, k, k + 1);
      OnlyWithinOnward(m, before, space.Mem(), v, v + k + 1, page);
      if !ok {
        Wider(m, space.Mem(), v, k + 1, total);
        return false;
      }
      PageBytesAre(file, ofs, readBytes, k, pos, pageRead);
      OneMoreInPlace(before, space.Mem(), v, k, file, ofs, readBytes, writable);
      WasUnmapped(m, before, page);
      left := left - pageRead;
      zeros := zeros - pageZero;
      pos := pos + pageRead;
      page := page + 1;
      k := k + 1;
    }
    ok := true;
  }

  /** The bytes of a segment in place. */
  lemma SegmentBytes(m: Memory, h: Header, file: seq<Byte>, i: nat)
    requires Words(h) && Validate(h, |file|) && i < h.memsz
    requires ReadBytes(h) > 0 ==> RoundDown(h.offset) + ReadBytes(h) <= |file|
    requires InPlace(m, RoundDown(h.vaddr) / PGSIZE, Span(h) / PGSIZE, file, RoundDown(h.offset), ReadBytes(h), h.writable)
    ensures h.filesz > 0 ==> h.offset + h.filesz <= |file|
    ensures UserByte(m, h.vaddr + i) == Some(if i < h.filesz then file[h.offset + i] else 0)
  {
    ValidIsInside(h, |file|);
    var ofs, r := RoundDown(h.offset), ReadBytes(h);
    var x := h.vaddr % PGSIZE + i;
    var k, j := x / PGSIZE, x % PGSIZE;
    ByteOfPage(h.vaddr, i);
    assert k < Span(h) / PGSIZE;
    assert PageHas(m, RoundDown(h.vaddr) / PGSIZE + k, PageBytes(file, ofs, r, k), h.writable);
    assert PageBytes(file, ofs, r, k)[j] == if x < r && ofs + x < |file| then file[ofs + x] else 0;
  }

  /** Byte i of a segment at va is on this page, at this offset. */
  lemma ByteOfPage(va: nat, i: nat)
    ensures
      var x := va % PGSIZE + i;
      (va + i) / PGSIZE == RoundDown(va) / PGSIZE + x / PGSIZE && (va + i) % PGSIZE == x % PGSIZE
  {
  }

  /** Byte i of the segment's memory image is in place: the file's, then zero. */
  predicate HasByte(m: Memory, file: seq<Byte>, h: Header, i: nat)
    requires i < h.filesz ==> h.offset + i < |file|
  {
    UserByte(m, h.vaddr + i) == Some(if i < h.filesz then file[h.offset + i] else 0)
  }

  predicate HadNone(m: Memory, h: Header, i: nat) { UserByte(m, h.vaddr + i).None? }

  /** The pages of a valid segment, all above page 0 and in user space, are the only ones
      newly mapped. */
  ghost predicate OnlySegment(m: Memory, n: Memory, h: Header) {
    var lo, hi := RoundDown(h.vaddr) / PGSIZE, RoundDown(h.vaddr) / PGSIZE + Span(h) / PGSIZE;
    && 1 <= lo && hi <= USER_PAGES && SameKernel(m, n)
    && forall u: nat {:trigger Pte(n, u)} :: Present(Pte(n, u)) && !Present(Pte(m, u)) ==> lo <= u < hi
  }

  lemma SegmentOnly(m: Memory, n: Memory, h: Header, fileLength: nat)
    requires Words(h) && Validate(h, fileLength)
    requires OnlyWithin(m, n, RoundDown(h.vaddr) / PGSIZE, RoundDown(h.vaddr) / PGSIZE + Span(h) / PGSIZE)
    ensures OnlySegment(m, n, h)
  {
    ValidIsInside(h, fileLength);
  }

  /** The pages of the segment are mapped, and can be written just if its header says so. */
  ghost predicate SegmentMapped(m: Memory, h: Header) {
    var lo, hi := RoundDown(h.vaddr) / PGSIZE, RoundDown(h.vaddr) / PGSIZE + Span(h) / PGSIZE;
    forall u: nat {:trigger Pte(m, u)} :: lo <= u < hi ==> Present(Pte(m, u)) && (Writable(Pte(m, u)) <==> h.writable)
  }

  lemma InPlaceIsMapped(m: Memory, h: Header, file: seq<Byte>)
    requires InPlace(m, RoundDown(h.vaddr) / PGSIZE, Span(h) / PGSIZE, file, RoundDown(h.offset), ReadBytes(h), h.writable)
    ensures SegmentMapped(m, h)
  {
    hide PageBytes, Pte;
    var lo := RoundDown(h.vaddr) / PGSIZE;
    forall u: nat | lo <= u < lo + Span(h) / PGSIZE
      ensures Present(Pte(m, u)) && (Writable(Pte(m, u)) <==> h.writable)
    {
      assert PageHas(m, lo + (u - lo), PageBytes(file, RoundDown(h.offset), ReadBytes(h), u - lo), h.writable);
    }
  }

  /** Loads a PT_LOAD segment. If it passes the checks and loading succeeds, every byte
      of its memory image is the file's or zero and its pages are new, and can be written
      just if the header says so.  Either way what
      was mapped before stays, and no page outside the segment is mapped, so neither page
      0 nor a kernel page is. */
  method LoadHeader(space: AddressSpace, file: seq<Byte>, h: Header) returns (ok: bool)
    requires space.Ok() && Words(h)
    modifies space
    ensures space.Ok() && Preserved(old(space.Mem()), space.Mem()) && Frames(space.Mem()) == Frames(old(space.Mem()))
    ensures !Validate(h, |file|) ==> !ok && space.Mem() == old(space.Mem())
    ensures Validate(h, |file|) ==> OnlySegment(old(space.Mem()), space.Mem(), h)
    ensures !ok && Validate(h, |file|) ==>
      || |old(space.free)| < 2 * (Span(h) / PGSIZE) || (h.filesz > 0 && h.offset + h.filesz > |file|)
      || exists u :: RoundDown(h.vaddr) / PGSIZE <= u < RoundDown(h.vaddr) / PGSIZE + Span(h) / PGSIZE
           && Present(Pte(old(space.Mem()), u))
    ensures ok ==> Validate(h, |file|) && (h.filesz > 0 ==> h.offset + h.filesz <= |file|)
    ensures ok ==> SegmentMapped(space.Mem(), h)
    ensures ok ==> forall i {:trigger HasByte(space.Mem(), file, h, i)} :: 0 <= i < h.memsz ==> HasByte(space.Mem(), file, h, i)
    ensures ok ==> forall i {:trigger HadNone(old(space.Mem()), h, i)} :: 0 <= i < h.memsz ==> HadNone(old(space.Mem()), h, i)
  {
    ok := Validate(h, |file|);
    ghost var m := space.Mem();
    if ok {
      ValidIsInside(h, |file|);
      var filePage, memPage := RoundDown(h.offset), RoundDown(h.vaddr);
      var readBytes := ReadBytes(h);
      ok := LoadSegment(space, file, filePage, memPage / PGSIZE, readBytes, Span(h) - readBytes, h.writable);
      SegmentOnly(m, space.Mem(), h, |file|);
      if ok {
        Finished(m, space.Mem(), h, file);
        InPlaceIsMapped(space.Mem(), h, file);
      }
    }
  }

  lemma Finished(m: Memory, n: Memory, h: Header, file: seq<Byte>)
    requires Words(h) && Validate(h, |file|)
    requires ReadBytes(h) > 0 ==> RoundDown(h.offset) + ReadBytes(h) <= |file|
    requires InPlace(n, RoundDown(h.vaddr) / PGSIZE, Span(h) / PGSIZE, file, RoundDown(h.offset), ReadBytes(h), h.writable)
    requires forall u :: RoundDown(h.vaddr) / PGSIZE <= u < RoundDown(h.vaddr) / PGSIZE + Span(h) / PGSIZE ==> !Present(Pte(m, u))
    ensures h.filesz > 0 ==> h.offset + h.filesz <= |file|
    ensures forall i {:trigger HasByte(n, file, h, i)} :: 0 <= i < h.memsz ==> HasByte(n, file, h, i)
    ensures forall i {:trigger HadNone(m, h, i)} :: 0 <= i < h.memsz ==> HadNone(m, h, i)
  {
    ValidIsInside(h, |file|);
    forall i: nat {:trigger HasByte(n, file, h, i)} {:trigger HadNone(m, h, i)} | i < h.memsz
      ensures HasByte(n, file, h, i) && HadNone(m, h, i)
    {
      SegmentBytes(n, h, file, i);
      ByteOfPage(h.vaddr, i);
      assert !Present(Pte(m, (h.vaddr + i) / PGSIZE));
    }
  }
}
