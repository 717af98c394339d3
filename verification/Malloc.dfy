/** malloc: pages cut into equal blocks, one free list per block size.
    A block is named by its address.  Small blocks live in one-page arenas behind
    a 12-byte header; a request too big for every descriptor gets whole pages of
    its own.  The contents of live blocks are tracked so that realloc's copy can
    be stated; the bytes of free blocks, which hold list links, are not. */
module Malloc {
  import opened Containers
  import opened Numbers
  import Bits
  import opened Bytes
  import opened Bitmaps
  import opened PagePools

  /** An arena's header, and the largest 32-bit size. */
  const HEADER: nat := 12
  const SIZE_MAX: nat := 0xFFFF_FFFF

  datatype Desc = Desc(size: nat, perArena: nat, free: seq<nat>)

  /** A page cut up for the descriptor with index d, or whole pages for one block. */
  datatype Arena =
    | Small(d: nat, freeCnt: nat)
    | Big(pages: nat)

  /** A block in use: the size asked for and the bytes it holds. */
  datatype Block = Block(asked: nat, data: seq<nat>)

  datatype Heap = Heap(descs: seq<Desc>, arenas: map<nat, Arena>, live: map<nat, Block>)

  // ----------------------------------------------------------------- addresses

  /** arena_to_block. */
  function Addr(page: nat, size: nat, i: nat): nat { page * PGSIZE + HEADER + i * size }

  /** The arena a block is in: pg_round_down. */
  function PageOf(b: nat): nat { b / PGSIZE }

  /** The blocks of an arena, in address order. */
  function ArenaBlocks(page: nat, d: Desc): (s: seq<nat>)
    ensures |s| == d.perArena
  {
    seq(d.perArena, (i: nat) => Addr(page, d.size, i))
  }

  function NewDesc(size: nat): Desc
    requires size > 0
  {
    Desc(size, (PGSIZE - HEADER) / size, [])
  }

  predicate DescShape(d: Desc) {
    d.size >= 16 && d.perArena == (PGSIZE - HEADER) / d.size && d.perArena > 0
  }

  /** A block, header included, stays inside its page. */
  lemma BlockInPage(page: nat, d: Desc, i: nat)
    requires DescShape(d) && i < d.perArena
    ensures page * PGSIZE + HEADER <= Addr(page, d.size, i)
    ensures Addr(page, d.size, i) + d.size <= (page + 1) * PGSIZE
    ensures PageOf(Addr(page, d.size, i)) == page
  {
    MulMono(i + 1, d.perArena, d.size);
    DivBounds(PGSIZE - HEADER, d.size);
    MulAdd(i, 1, d.size);
    var b := Addr(page, d.size, i);
    DivUnique(b, PGSIZE, page);
  }

  /** Different blocks of one arena do not overlap. */
  lemma BlocksApart(page: nat, size: nat, i: nat, j: nat)
    requires i < j
    ensures Addr(page, size, i) + size <= Addr(page, size, j)
  {
    MulMono(i + 1, j, size);
    MulAdd(i, 1, size);
  }

  lemma BlocksDistinct(page: nat, d: Desc)
    requires DescShape(d)
    ensures Distinct(ArenaBlocks(page, d))
    ensures forall b <- ArenaBlocks(page, d) :: PageOf(b) == page
  {
    forall i, j | 0 <= i < j < d.perArena
      ensures ArenaBlocks(page, d)[i] != ArenaBlocks(page, d)[j]
    {
      BlocksApart(page, d.size, i, j);
    }
    forall b | b in ArenaBlocks(page, d)
      ensures PageOf(b) == page
    {
      var i :| 0 <= i < d.perArena && b == ArenaBlocks(page, d)[i];
      BlockInPage(page, d, i);
    }
  }

  // ----------------------------------------------------- what the lists should be

  /** Pages an arena spans. */
  function Span(a: Arena): nat { if a.Small? then 1 else a.pages }

  /** The free blocks of the arena at page. */
  ghost function FreeIn(q: seq<nat>, page: nat): set<nat> {
    set b | b in q && PageOf(b) == page
  }

  /** The free list of a descriptor holds distinct blocks of its own arenas. */
  ghost predicate DescOk(h: Heap, d: nat)
    requires d < |h.descs|
  {
    && DescShape(h.descs[d]) && Distinct(h.descs[d].free)
    && forall b <- h.descs[d].free ::
         PageOf(b) in h.arenas && h.arenas[PageOf(b)].Small? && h.arenas[PageOf(b)].d == d &&
         b in ArenaBlocks(PageOf(b), h.descs[d])
  }

  /** A small arena counts its listed blocks, and each of its blocks is listed or
      live but not both; between calls one at least is live.  A big one is live. */
  ghost predicate ArenaOk(h: Heap, page: nat, unused: Option<nat>)
    requires page in h.arenas
  {
    match h.arenas[page]
    case Small(d, freeCnt) =>
      && d < |h.descs|
      && freeCnt == |FreeIn(h.descs[d].free, page)|
      && (freeCnt < h.descs[d].perArena || (unused == Some(page) && freeCnt == h.descs[d].perArena))
      && forall b <- ArenaBlocks(page, h.descs[d]) :: b in h.descs[d].free <==> b !in h.live
    case Big(n) => n > 0 && page * PGSIZE + HEADER in h.live
  }

  /** A request whose size plus header does not wrap around 32 bits. */
  predicate Fits(asked: nat) { asked + HEADER <= SIZE_MAX + 1 }

  /** A live block is one of its arena's blocks and has room for what was asked. */
  ghost predicate LiveOk(h: Heap, b: nat)
    requires b in h.live
  {
    && PageOf(b) in h.arenas
    && match h.arenas[PageOf(b)]
       case Small(d, _) =>
         && d < |h.descs| && b in ArenaBlocks(PageOf(b), h.descs[d])
         && |h.live[b].data| == h.descs[d].size && h.live[b].asked <= h.descs[d].size
       case Big(n) =>
         && b == PageOf(b) * PGSIZE + HEADER && n > 0
         && |h.live[b].data| == n * PGSIZE - HEADER
         && (Fits(h.live[b].asked) ==> h.live[b].asked <= n * PGSIZE - HEADER)
  }

  /** Arenas do not overlap. */
  ghost predicate ArenasApart(h: Heap) {
    forall p, q :: p in h.arenas && q in h.arenas && p < q ==> p + Span(h.arenas[p]) <= q
  }

  ghost predicate InvBut(h: Heap, unused: Option<nat>) {
    && (forall d {:trigger DescOk(h, d)} :: 0 <= d < |h.descs| ==> DescOk(h, d))
    && (forall p {:trigger ArenaOk(h, p, unused)} :: p in h.arenas ==> ArenaOk(h, p, unused))
    && (forall b {:trigger LiveOk(h, b)} :: b in h.live ==> LiveOk(h, b))
    && ArenasApart(h)
  }

  ghost predicate Inv(h: Heap) { InvBut(h, None) }

  // ---------------------------------------------------------------- operations

  /** The front of descriptor d's list becomes live. */
  function TakeFirst(h: Heap, d: nat, blk: Block): Heap
    requires d < |h.descs| && h.descs[d].free != []
    requires PageOf(h.descs[d].free[0]) in h.arenas && h.arenas[PageOf(h.descs[d].free[0])].Small?
    requires h.arenas[PageOf(h.descs[d].free[0])].freeCnt > 0
  {
    var b := h.descs[d].free[0];
    var a := h.arenas[PageOf(b)];
    Heap(h.descs[d := h.descs[d].(free := h.descs[d].free[1..])],
         h.arenas[PageOf(b) := a.(freeCnt := a.freeCnt - 1)],
         h.live[b := blk])
  }

  /** A fresh page becomes an arena and all its blocks are listed at the back. */
  function AddArena(h: Heap, d: nat, page: nat): Heap
    requires d < |h.descs|
  {
    var x := h.descs[d];
    h.(descs := h.descs[d := x.(free := x.free + ArenaBlocks(page, x))],
       arenas := h.arenas[page := Small(d, x.perArena)])
  }

  /** Block b goes to the front of its descriptor's list. */
  function GiveBack(h: Heap, b: nat): Heap
    requires PageOf(b) in h.arenas && h.arenas[PageOf(b)].Small? && h.arenas[PageOf(b)].d < |h.descs|
  {
    var a := h.arenas[PageOf(b)];
    Heap(h.descs[a.d := h.descs[a.d].(free := [b] + h.descs[a.d].free)],
         h.arenas[PageOf(b) := a.(freeCnt := a.freeCnt + 1)],
         h.live - {b})
  }

  function RemoveAll(q: seq<nat>, bs: seq<nat>): seq<nat> {
    if bs == [] then q else Unlisted(RemoveAll(q, bs[..|bs| - 1]), bs[|bs| - 1])
  }

  /** An unused arena's blocks leave the list and its page is given up. */
  function DropArena(h: Heap, page: nat): Heap
    requires page in h.arenas && h.arenas[page].Small? && h.arenas[page].d < |h.descs|
  {
    var d := h.arenas[page].d;
    h.(descs := h.descs[d := h.descs[d].(free := RemoveAll(h.descs[d].free, ArenaBlocks(page, h.descs[d])))],
       arenas := h.arenas - {page})
  }

  function AddBig(h: Heap, page: nat, n: nat, blk: Block): Heap {
    h.(arenas := h.arenas[page := Big(n)], live := h.live[page * PGSIZE + HEADER := blk])
  }

  function DropBig(h: Heap, page: nat): Heap {
    h.(arenas := h.arenas - {page}, live := h.live - {page * PGSIZE + HEADER})
  }

  // ------------------------------------------------------- they keep the invariant

  lemma {:induction false} RemoveAllMembers(q: seq<nat>, bs: seq<nat>)
    requires Distinct(q)
    ensures Distinct(RemoveAll(q, bs))
    ensures forall x :: x in RemoveAll(q, bs) <==> x in q && x !in bs
  {
    if bs != [] {
      var rest, last := bs[..|bs| - 1], bs[|bs| - 1];
      assert bs == rest + [last];
      RemoveAllMembers(q, rest);
      UnlistedIs(RemoveAll(q, rest), last);
    }
  }

  lemma {:induction false} DistinctCard<T>(q: seq<T>)
    requires Distinct(q)
    ensures |set x | x in q| == |q|
  {
    if q != [] {
      DropFirst(q);
      DistinctCard(q[1..]);
      assert (set x | x in q) == (set x | x in q[1..]) + {q[0]};
    }
  }

  lemma FrontIsCounted(h: Heap, d: nat, unused: Option<nat>)
    requires d < |h.descs| && DescOk(h, d) && h.descs[d].free != []
    requires PageOf(h.descs[d].free[0]) in h.arenas ==> ArenaOk(h, PageOf(h.descs[d].free[0]), unused)
    ensures var b := h.descs[d].free[0];
      && PageOf(b) in h.arenas && h.arenas[PageOf(b)].Small? && h.arenas[PageOf(b)].d == d
      && h.arenas[PageOf(b)].freeCnt > 0 && b !in h.live
      && b in ArenaBlocks(PageOf(b), h.descs[d])
  {
    var b := h.descs[d].free[0];
    assert b in h.descs[d].free;
    assert b in FreeIn(h.descs[d].free, PageOf(b));
  }

  lemma TakeArenaOk(h: Heap, d: nat, blk: Block, unused: Option<nat>, r: nat)
    requires d < |h.descs| && DescOk(h, d) && h.descs[d].free != []
    requires PageOf(h.descs[d].free[0]) in h.arenas && ArenaOk(h, PageOf(h.descs[d].free[0]), unused)
    requires h.arenas[PageOf(h.descs[d].free[0])].Small? && h.arenas[PageOf(h.descs[d].free[0])].freeCnt > 0
    requires r in h.arenas && ArenaOk(h, r, unused) && (unused.None? || unused == Some(PageOf(h.descs[d].free[0])))
    requires h.arenas[r].Small? ==> DescShape(h.descs[h.arenas[r].d])
    ensures ArenaOk(TakeFirst(h, d, blk), r, None)
  {
    var q := h.descs[d].free;
    var b := q[0];
    FrontIsCounted(h, d, unused);
    DropFirst(q);
    assert FreeIn(q[1..], r) == FreeIn(q, r) - {b};
    if h.arenas[r].Small? {
      BlocksDistinct(r, h.descs[h.arenas[r].d]);
      assert b in FreeIn(q, PageOf(b));
    }
  }

  /** Handing out the front block of a list keeps the invariant. */
  lemma TakeKeepsInv(h: Heap, d: nat, blk: Block, unused: Option<nat>)
    requires InvBut(h, unused) && d < |h.descs| && h.descs[d].free != []
    requires unused.None? || unused == Some(PageOf(h.descs[d].free[0]))
    requires |blk.data| == h.descs[d].size && blk.asked <= h.descs[d].size
    ensures PageOf(h.descs[d].free[0]) in h.arenas && h.arenas[PageOf(h.descs[d].free[0])].Small?
    ensures h.arenas[PageOf(h.descs[d].free[0])].freeCnt > 0
    ensures h.descs[d].free[0] !in h.live
    ensures Inv(TakeFirst(h, d, blk))
  {
    var b := h.descs[d].free[0];
    var p := PageOf(b);
    assert DescOk(h, d);
    assert p in h.arenas ==> ArenaOk(h, p, unused);
    FrontIsCounted(h, d, unused);
    DropFirst(h.descs[d].free);
    var h1 := TakeFirst(h, d, blk);
    forall e | 0 <= e < |h1.descs|
      ensures DescOk(h1, e)
    {
      assert DescOk(h, e);
    }
    forall r | r in h1.arenas
      ensures ArenaOk(h1, r, None)
    {
      assert ArenaOk(h, r, unused);
      assert h.arenas[r].Small? ==> DescOk(h, h.arenas[r].d);
      TakeArenaOk(h, d, blk, unused, r);
    }
    forall x | x in h1.live
      ensures LiveOk(h1, x)
    {
      assert x in h.live ==> LiveOk(h, x);
    }
  }

  /** Pages page .. page + n touch no arena. */
  ghost predicate FreshPages(h: Heap, page: nat, n: nat) {
    forall p <- h.arenas :: p + Span(h.arenas[p]) <= page || page + n <= p
  }

  lemma AddArenaFreeIn(q: seq<nat>, page: nat, x: Desc, r: nat)
    requires DescShape(x) && forall b <- q :: PageOf(b) != page
    ensures FreeIn(q + ArenaBlocks(page, x), r) == if r == page then (set b | b in ArenaBlocks(page, x)) else FreeIn(q, r)
  {
    BlocksDistinct(page, x);
  }

  lemma AddArenaOk(h: Heap, d: nat, page: nat, r: nat)
    requires d < |h.descs| && DescShape(h.descs[d]) && page !in h.arenas
    requires forall b <- h.descs[d].free :: PageOf(b) != page
    requires forall b <- h.live :: PageOf(b) != page
    requires r in h.arenas ==> ArenaOk(h, r, None) && (h.arenas[r].Small? ==> DescShape(h.descs[h.arenas[r].d]))
    requires r in h.arenas || r == page
    ensures ArenaOk(AddArena(h, d, page), r, Some(page))
  {
    var x := h.descs[d];
    AddArenaFreeIn(x.free, page, x, r);
    BlocksDistinct(page, x);
    DistinctCard(ArenaBlocks(page, x));
    if r != page && h.arenas[r].Small? {
      BlocksDistinct(r, h.descs[h.arenas[r].d]);
    }
  }

  lemma AddArenaKeepsInv(h: Heap, d: nat, page: nat)
    requires Inv(h) && d < |h.descs| && h.descs[d].free == []
    requires FreshPages(h, page, 1)
    ensures InvBut(AddArena(h, d, page), Some(page))
    ensures forall b <- AddArena(h, d, page).descs[d].free :: PageOf(b) == page
    ensures AddArena(h, d, page).descs[d].free != []
  {
    assert DescOk(h, d);
    var x := h.descs[d];
    var h1 := AddArena(h, d, page);
    assert page !in h.arenas by {
      assert page in h.arenas ==> ArenaOk(h, page, None);
    }
    forall b | b in h.live
      ensures PageOf(b) != page
    {
      assert LiveOk(h, b);
    }
    BlocksDistinct(page, x);
    assert h1.descs[d].free == ArenaBlocks(page, x);
    forall e | 0 <= e < |h1.descs|
      ensures DescOk(h1, e)
    {
      assert DescOk(h, e);
    }
    forall r | r in h1.arenas
      ensures ArenaOk(h1, r, Some(page))
    {
      if r in h.arenas {
        assert ArenaOk(h, r, None);
        assert h.arenas[r].Small? ==> DescOk(h, h.arenas[r].d);
      }
      AddArenaOk(h, d, page, r);
    }
    forall b | b in h1.live
      ensures LiveOk(h1, b)
    {
      assert LiveOk(h, b);
    }
  }

  lemma GiveBackArenaOk(h: Heap, b: nat, r: nat)
    requires b in h.live && LiveOk(h, b) && h.arenas[PageOf(b)].Small?
    requires ArenaOk(h, PageOf(b), None) && r in h.arenas && ArenaOk(h, r, None)
    requires h.arenas[r].Small? ==> DescShape(h.descs[h.arenas[r].d])
    ensures ArenaOk(GiveBack(h, b), r, Some(PageOf(b)))
  {
    var p := PageOf(b);
    var d := h.arenas[p].d;
    var q := h.descs[d].free;
    assert FreeIn([b] + q, r) == if r == p then FreeIn(q, r) + {b} else FreeIn(q, r);
    assert b !in q;
    if h.arenas[r].Small? {
      BlocksDistinct(r, h.descs[h.arenas[r].d]);
    } else if r * PGSIZE + HEADER == b {
      DivUnique(b, PGSIZE, r);
    }
  }

  /** free: the block is listed again; the arena may now be unused. */
  lemma GiveBackKeepsInv(h: Heap, b: nat)
    requires Inv(h) && b in h.live && PageOf(b) in h.arenas && h.arenas[PageOf(b)].Small?
    ensures h.arenas[PageOf(b)].d < |h.descs|
    ensures InvBut(GiveBack(h, b), Some(PageOf(b)))
  {
    var p := PageOf(b);
    assert LiveOk(h, b) && ArenaOk(h, p, None) && DescOk(h, h.arenas[p].d);
    var h1 := GiveBack(h, b);
    forall e | 0 <= e < |h1.descs|
      ensures DescOk(h1, e)
    {
      assert DescOk(h, e);
    }
    forall r | r in h1.arenas
      ensures ArenaOk(h1, r, Some(p))
    {
      assert ArenaOk(h, r, None);
      assert h.arenas[r].Small? ==> DescOk(h, h.arenas[r].d);
      GiveBackArenaOk(h, b, r);
    }
    forall x | x in h1.live
      ensures LiveOk(h1, x)
    {
      assert LiveOk(h, x);
    }
  }

  lemma NoneUnused(h: Heap, page: nat)
    requires InvBut(h, Some(page))
    requires page in h.arenas && h.arenas[page].Small? && h.arenas[page].d < |h.descs|
    requires h.arenas[page].freeCnt < h.descs[h.arenas[page].d].perArena
    ensures Inv(h)
  {
    forall r | r in h.arenas
      ensures ArenaOk(h, r, None)
    {
      assert ArenaOk(h, r, Some(page));
    }
  }

  lemma SubsetOfEqualSize<T>(a: set<T>, b: set<T>)
    requires a <= b && |a| == |b|
    ensures a == b
  {
    assert |b - a| == |b| - |a|;
  }

  /** An arena whose count is full has every block listed, so none is live. */
  lemma UnusedArena(h: Heap, page: nat)
    requires page in h.arenas && h.arenas[page].Small? && ArenaOk(h, page, Some(page))
    requires DescOk(h, h.arenas[page].d) && h.arenas[page].freeCnt == h.descs[h.arenas[page].d].perArena
    ensures forall b <- ArenaBlocks(page, h.descs[h.arenas[page].d]) :: b in h.descs[h.arenas[page].d].free && b !in h.live
  {
    var x := h.descs[h.arenas[page].d];
    BlocksDistinct(page, x);
    DistinctCard(ArenaBlocks(page, x));
    var all := set b | b in ArenaBlocks(page, x);
    SubsetOfEqualSize(FreeIn(x.free, page), all);
    forall b | b in ArenaBlocks(page, x)
      ensures b in x.free
    {
      assert b in all;
    }
  }

  lemma DropArenaOk(h: Heap, page: nat, r: nat)
    requires page in h.arenas && h.arenas[page].Small? && h.arenas[page].d < |h.descs|
    requires DescOk(h, h.arenas[page].d)
    requires r in h.arenas && r != page && ArenaOk(h, r, Some(page))
    requires h.arenas[r].Small? ==> DescShape(h.descs[h.arenas[r].d])
    ensures ArenaOk(DropArena(h, page), r, None)
  {
    var d := h.arenas[page].d;
    var x := h.descs[d];
    RemoveAllMembers(x.free, ArenaBlocks(page, x));
    BlocksDistinct(page, x);
    assert FreeIn(RemoveAll(x.free, ArenaBlocks(page, x)), r) == FreeIn(x.free, r);
    if h.arenas[r].Small? {
      BlocksDistinct(r, h.descs[h.arenas[r].d]);
    }
  }

  /** An unused arena can be given back: none of its blocks stays listed and no
      live block was in it. */
  lemma DropArenaKeepsInv(h: Heap, page: nat)
    requires InvBut(h, Some(page))
    requires page in h.arenas && h.arenas[page].Small? && h.arenas[page].d < |h.descs|
    requires h.arenas[page].freeCnt == h.descs[h.arenas[page].d].perArena
    ensures Inv(DropArena(h, page))
    ensures forall b <- h.live :: PageOf(b) != page
    ensures forall b <- DropArena(h, page).descs[h.arenas[page].d].free :: PageOf(b) != page
  {
    var d := h.arenas[page].d;
    var x := h.descs[d];
    var h1 := DropArena(h, page);
    assert ArenaOk(h, page, Some(page)) && DescOk(h, d);
    UnusedArena(h, page);
    RemoveAllMembers(x.free, ArenaBlocks(page, x));
    BlocksDistinct(page, x);
    forall e | 0 <= e < |h1.descs|
      ensures DescOk(h1, e)
    {
      assert DescOk(h, e);
    }
    forall r | r in h1.arenas
      ensures ArenaOk(h1, r, None)
    {
      assert ArenaOk(h, r, Some(page));
      assert h.arenas[r].Small? ==> DescOk(h, h.arenas[r].d);
      DropArenaOk(h, page, r);
    }
    forall b | b in h1.live
      ensures LiveOk(h1, b) && PageOf(b) != page
    {
      assert LiveOk(h, b);
    }
  }

  lemma AddBigKeepsInv(h: Heap, page: nat, n: nat, blk: Block)
    requires Inv(h) && n > 0 && FreshPages(h, page, n)
    requires |blk.data| == n * PGSIZE - HEADER && (Fits(blk.asked) ==> blk.asked <= n * PGSIZE - HEADER)
    ensures page * PGSIZE + HEADER !in h.live && PageOf(page * PGSIZE + HEADER) == page
    ensures Inv(AddBig(h, page, n, blk))
  {
    var b := page * PGSIZE + HEADER;
    var h1 := AddBig(h, page, n, blk);
    DivUnique(b, PGSIZE, page);
    assert page !in h.arenas by {
      assert page in h.arenas ==> ArenaOk(h, page, None);
    }
    assert b in h.live ==> LiveOk(h, b);
    forall e | 0 <= e < |h1.descs|
      ensures DescOk(h1, e)
    {
      assert DescOk(h, e);
    }
    forall r | r in h1.arenas
      ensures ArenaOk(h1, r, None)
    {
      if r != page {
        assert ArenaOk(h, r, None);
        if h.arenas[r].Small? {
          assert DescOk(h, h.arenas[r].d);
          BlocksDistinct(r, h.descs[h.arenas[r].d]);
        }
      }
    }
    forall x | x in h1.live
      ensures LiveOk(h1, x)
    {
      assert x in h.live ==> LiveOk(h, x);
    }
    forall p, q | p in h1.arenas && q in h1.arenas && p < q
      ensures p + Span(h1.arenas[p]) <= q
    {
      assert q in h.arenas ==> ArenaOk(h, q, None);
    }
  }

  lemma DropBigKeepsInv(h: Heap, page: nat)
    requires Inv(h) && page in h.arenas && h.arenas[page].Big?
    ensures Inv(DropBig(h, page))
  {
    var b := page * PGSIZE + HEADER;
    var h1 := DropBig(h, page);
    DivUnique(b, PGSIZE, page);
    forall e | 0 <= e < |h1.descs|
      ensures DescOk(h1, e)
    {
      assert DescOk(h, e);
    }
    forall r | r in h1.arenas
      ensures ArenaOk(h1, r, None)
    {
      assert ArenaOk(h, r, None);
      if h.arenas[r].Small? {
        assert DescOk(h, h.arenas[r].d);
        BlocksDistinct(r, h.descs[h.arenas[r].d]);
      }
    }
    forall x | x in h1.live
      ensures LiveOk(h1, x)
    {
      assert LiveOk(h, x);
    }
  }

  // -------------------------------------------------------------- what it means

  /** The addresses of a live block. */
  ghost predicate Covers(h: Heap, b: nat, addr: nat)
    requires b in h.live
  {
    b <= addr < b + |h.live[b].data|
  }

  lemma SmallCovers(h: Heap, b: nat, addr: nat)
    requires Inv(h) && b in h.live && Covers(h, b, addr)
    ensures PageOf(b) in h.arenas
    ensures PageOf(b) * PGSIZE + HEADER <= addr < (PageOf(b) + Span(h.arenas[PageOf(b)])) * PGSIZE
  {
    assert LiveOk(h, b);
    var p := PageOf(b);
    if h.arenas[p].Small? {
      var x := h.descs[h.arenas[p].d];
      assert DescOk(h, h.arenas[p].d);
      var i :| 0 <= i < x.perArena && b == ArenaBlocks(p, x)[i];
      BlockInPage(p, x, i);
    }
  }

  /** Live blocks never overlap, and none touches another arena's header. */
  lemma LiveBlocksDisjoint(h: Heap, b: nat, c: nat, addr: nat)
    requires Inv(h) && b in h.live && c in h.live && Covers(h, b, addr) && Covers(h, c, addr)
    ensures b == c
  {
    SmallCovers(h, b, addr);
    SmallCovers(h, c, addr);
    var p: nat, q: nat := PageOf(b), PageOf(c);
    assert LiveOk(h, b) && LiveOk(h, c);
    assert p == q;
    if h.arenas[p].Small? {
      var x := h.descs[h.arenas[p].d];
      var i :| 0 <= i < x.perArena && b == ArenaBlocks(p, x)[i];
      var j :| 0 <= j < x.perArena && c == ArenaBlocks(p, x)[j];
      if i < j { BlocksApart(p, x.size, i, j); } else if j < i { BlocksApart(p, x.size, j, i); }
    }
  }

  /** A live block has at least the size asked for, unless the size plus the
      arena header wraps around 32 bits. */
  lemma LiveBlockIsBigEnough(h: Heap, b: nat)
    requires Inv(h) && b in h.live && Fits(h.live[b].asked)
    ensures h.live[b].asked <= |h.live[b].data|
  {
    assert LiveOk(h, b);
  }

  // ------------------------------------------------------ the allocator, in place

  /** Between calls every small arena has a live block. */
  lemma SmallArenaHasLiveBlock(h: Heap, page: nat) returns (b: nat)
    requires Inv(h) && page in h.arenas && h.arenas[page].Small?
    ensures b in h.live && PageOf(b) == page
  {
    assert ArenaOk(h, page, None);
    var x := h.descs[h.arenas[page].d];
    assert DescOk(h, h.arenas[page].d);
    b := SomeBlockUnlisted(page, x);
  }

  lemma SomeBlockUnlisted(page: nat, x: Desc) returns (b: nat)
    requires DescShape(x) && |FreeIn(x.free, page)| < x.perArena
    ensures b in ArenaBlocks(page, x) && b !in x.free && PageOf(b) == page
  {
    BlocksDistinct(page, x);
    DistinctCard(ArenaBlocks(page, x));
    var all := set c | c in ArenaBlocks(page, x);
    var listed := FreeIn(x.free, page);
    if forall c :: c in all ==> c in listed {
      SubsetSize(all, listed);
    }
    b :| b in all && b !in listed;
  }

  /** Pages for a request too big for every descriptor, in 32-bit arithmetic. */
  function BigPages(size: nat): nat {
    ((size + HEADER) % (SIZE_MAX + 1) + PGSIZE - 1) % (SIZE_MAX + 1) / PGSIZE
  }

  lemma BigPagesFit(size: nat)
    requires size <= SIZE_MAX && Fits(size) && BigPages(size) > 0
    ensures size <= BigPages(size) * PGSIZE - HEADER
  {
  }

  /** The one family of requests that is served short: when size + 12 wraps, one
      page is enough for the wrapped size. */
  lemma WrappedRequestIsShort(size: nat)
    requires 0 < size <= SIZE_MAX && BigPages(size) > 0
    ensures size <= BigPages(size) * PGSIZE - HEADER <==> Fits(size)
    ensures BigPages(SIZE_MAX) == 1
  {
  }

  /** Where realloc copies the smaller of the two sizes: into a block of its own pages the
      copy ends inside it exactly when the new size did not wrap or the old block is no
      longer than the new one. */
  lemma CopyStaysInside(len: nat, size: nat)
    requires 0 < size <= SIZE_MAX && BigPages(size) > 0
    ensures Min(len, size) <= BigPages(size) * PGSIZE - HEADER
       <==> Fits(size) || len <= BigPages(size) * PGSIZE - HEADER
  {
    WrappedRequestIsShort(size);
  }

  /** Resizing a block of two pages to the largest size overruns the one page obtained. */
  lemma WrappedCopyOverruns()
    ensures BigPages(8000) == 2 && BigPages(SIZE_MAX) == 1
    ensures Min(BigPages(8000) * PGSIZE - HEADER, SIZE_MAX) > BigPages(SIZE_MAX) * PGSIZE - HEADER
  {
    assert (8000 + HEADER + PGSIZE - 1) / PGSIZE == 2;
  }

  /** calloc's 32-bit product. */
  function Product(a: nat, b: nat): nat { a * b % (SIZE_MAX + 1) }

  /** calloc's overflow test turns the request down. */
  predicate TurnedDown(a: nat, b: nat) { Product(a, b) < a || Product(a, b) < b }

  lemma ProductIsExact(a: nat, b: nat)
    ensures Product(a, b) <= SIZE_MAX && (a * b <= SIZE_MAX <==> Product(a, b) == a * b)
  {
    ModBound(a * b);
  }

  lemma ModBound(x: nat)
    ensures x % (SIZE_MAX + 1) <= SIZE_MAX && (x <= SIZE_MAX <==> x % (SIZE_MAX + 1) == x)
  {
  }

  /** The test is right about every product that fits 32 bits: it turns down only an empty
      request with one factor not zero.  A product that does not fit gets past it exactly
      when what is left of it is no smaller than either factor. */
  lemma OverflowTest(a: nat, b: nat)
    requires a <= SIZE_MAX && b <= SIZE_MAX
    ensures a * b <= SIZE_MAX ==> (TurnedDown(a, b) <==> a * b == 0 && (a > 0 || b > 0))
    ensures a * b > SIZE_MAX ==> (TurnedDown(a, b) <==> a * b % (SIZE_MAX + 1) < if a < b then b else a)
  {
    if 0 < a && 0 < b {
      MulMono(1, a, b);
      MulMono(1, b, a);
    }
  }

  /** 65537 squared does not fit, and the test lets it through with 131073 bytes. */
  lemma OverflowMissed()
    ensures 0x1_0001 * 0x1_0001 > SIZE_MAX && !TurnedDown(0x1_0001, 0x1_0001)
    ensures Product(0x1_0001, 0x1_0001) == 0x2_0001
  {
    assert 0x1_0001 * 0x1_0001 == 0x1_0002_0001;
  }

  predicate PageUsed(base: nat, used: seq<bool>, q: nat) {
    base <= q < base + |used| && used[q - base]
  }

  predicate InArena(arenas: map<nat, Arena>, p: nat, q: nat) {
    p in arenas && p <= q < p + Span(arenas[p])
  }

  /** Every page of every arena is handed out by the page allocator. */
  ghost predicate BackedBy(arenas: map<nat, Arena>, base: nat, used: seq<bool>) {
    forall p: nat, q: nat :: InArena(arenas, p, q) ==> PageUsed(base, used, q)
  }

  /** Pages the pool had free cannot overlap an arena. */
  lemma UnusedIsFresh(h: Heap, base: nat, used: seq<bool>, page: nat, n: nat)
    requires BackedBy(h.arenas, base, used) && n > 0 && base <= page && page - base + n <= |used|
    requires AllAre(used, page - base, n, false) && forall p <- h.arenas :: Span(h.arenas[p]) > 0
    ensures FreshPages(h, page, n)
  {
    forall p: nat | p in h.arenas
      ensures p + Span(h.arenas[p]) <= page || page + n <= p
    {
      var q: nat := if p <= page then page else p;
      assert InArena(h.arenas, p, q) ==> PageUsed(base, used, q);
    }
  }

  lemma BackedBySpans(a1: map<nat, Arena>, a2: map<nat, Arena>, base: nat, used: seq<bool>)
    requires BackedBy(a1, base, used) && a2.Keys == a1.Keys && forall p <- a1 :: Span(a2[p]) == Span(a1[p])
    ensures BackedBy(a2, base, used)
  {
    forall p: nat, q: nat | InArena(a2, p, q)
      ensures PageUsed(base, used, q)
    {
      assert InArena(a1, p, q);
    }
  }

  lemma BackedWithMore(arenas: map<nat, Arena>, base: nat, used: seq<bool>, page: nat, n: nat, a: Arena)
    requires BackedBy(arenas, base, used) && base <= page && page - base + n <= |used| && Span(a) == n
    ensures BackedBy(arenas[page := a], base, Fill(used, page - base, n, true))
  {
    var more := arenas[page := a];
    forall p: nat, q: nat | InArena(more, p, q)
      ensures PageUsed(base, Fill(used, page - base, n, true), q)
    {
      assert p != page ==> InArena(arenas, p, q);
    }
  }

  lemma BackedWithLess(h: Heap, base: nat, used: seq<bool>, page: nat)
    requires BackedBy(h.arenas, base, used) && page in h.arenas && ArenasApart(h) && Span(h.arenas[page]) > 0
    ensures var n := Span(h.arenas[page]);
      && base <= page && page - base + n <= |used| && AllAre(used, page - base, n, true)
      && BackedBy(h.arenas - {page}, base, Fill(used, page - base, n, false))
  {
    var n := Span(h.arenas[page]);
    assert InArena(h.arenas, page, page) && InArena(h.arenas, page, page + n - 1);
    forall i: nat | page - base <= i < page - base + n
      ensures used[i]
    {
      assert InArena(h.arenas, page, base + i);
    }
    forall p: nat, q: nat | InArena(h.arenas - {page}, p, q)
      ensures PageUsed(base, Fill(used, page - base, n, false), q)
    {
      assert InArena(h.arenas, p, q);
    }
  }

  lemma SpansPositive(h: Heap)
    requires Inv(h)
    ensures forall p <- h.arenas :: Span(h.arenas[p]) > 0
  {
    forall p | p in h.arenas
      ensures Span(h.arenas[p]) > 0
    {
      assert ArenaOk(h, p, None);
    }
  }

  /** A descriptor's blocks are smaller than a page. */
  lemma SmallIsShort(h: Heap, d: nat)
    requires Inv(h) && d < |h.descs|
    ensures h.descs[d].size <= PGSIZE - HEADER
  {
    assert DescOk(h, d);
  }

  /** No block is listed, and there is no page for a new arena. */
  ghost predicate Lacks(x: Desc, used: seq<bool>) { x.free == [] && IsFirstFit(used, 0, 1, false, None) }

  /** The request cannot be met: by the smallest descriptor that is big enough, or, when
      none is, by pages of its own. */
  ghost predicate Exhausted(descs: seq<Desc>, used: seq<bool>, size: nat) {
    || (exists d :: 0 <= d < |descs| && size <= descs[d].size && Lacks(descs[d], used)
          && forall i :: 0 <= i < d ==> descs[i].size < size)
    || ((forall i :: 0 <= i < |descs| ==> descs[i].size < size)
        && (BigPages(size) > 0 ==> IsFirstFit(used, 0, BigPages(size), false, None)))
  }

  // ----------------------------------------------------------- the page pool's share

  /** n pages from page on, the first that were free, are now taken. */
  ghost predicate Taken(base: nat, before: seq<bool>, after: seq<bool>, page: nat, n: nat) {
    base <= page && IsFirstFit(before, 0, n, false, Some(page - base)) && after == Fill(before, page - base, n, true)
  }

  /** n pages from page on, which were taken, are now free. */
  ghost predicate Returned(base: nat, before: seq<bool>, after: seq<bool>, page: nat, n: nat) {
    && base <= page && page - base + n <= |before| && AllAre(before, page - base, n, true)
    && after == Fill(before, page - base, n, false)
  }

  /** A block on `page` was handed out: the pool gave up that arena's pages if the arena is
      new, and nothing otherwise. */
  ghost predicate PagesTaken(base: nat, a0: map<nat, Arena>, before: seq<bool>,
                             a1: map<nat, Arena>, after: seq<bool>, page: nat) {
    page in a1 && if page in a0 then after == before else Taken(base, before, after, page, Span(a1[page]))
  }

  /** A block on `page` was freed: the pool got that arena's pages back if the arena is
      gone, and nothing otherwise. */
  ghost predicate PagesReturned(base: nat, a0: map<nat, Arena>, before: seq<bool>,
                                a1: map<nat, Arena>, after: seq<bool>, page: nat) {
    page in a0 && if page in a1 then after == before else Returned(base, before, after, page, Span(a0[page]))
  }

  ghost predicate SpansKept(a0: map<nat, Arena>, a1: map<nat, Arena>) {
    forall p <- a0 :: p in a1 && Span(a1[p]) == Span(a0[p])
  }

  /** The heap after free(b): its block is listed again, unless that was the arena's last. */
  ghost predicate IsFreed(h: Heap, b: nat, h1: Heap) {
    && PageOf(b) in h.arenas
    && match h.arenas[PageOf(b)]
       case Big(_) => h1 == DropBig(h, PageOf(b))
       case Small(d, freeCnt) =>
         && d < |h.descs|
         && h1 == if freeCnt + 1 < h.descs[d].perArena then GiveBack(h, b) else DropArena(GiveBack(h, b), PageOf(b))
  }

  class Allocator {
    const pool: PagePool
    var descs: seq<Desc>
    var arenas: map<nat, Arena>
    var live: map<nat, Block>

    ghost function Snapshot(): Heap
      reads this
    {
      Heap(descs, arenas, live)
    }

    ghost predicate Backed()
      requires pool.Valid()
      reads this, pool, pool.usedMap, pool.usedMap.bits
    {
      BackedBy(arenas, pool.base, pool.Used())
    }

    /** malloc_init's descriptors: block sizes in increasing order. */
    ghost predicate Sorted()
      reads this
    {
      forall i, j :: 0 <= i < j < |descs| ==> descs[i].size < descs[j].size
    }

    ghost predicate Valid()
      reads this, pool, pool.usedMap, pool.usedMap.bits
    {
      pool.Valid() && Inv(Snapshot()) && Backed() && Sorted()
    }

    constructor (pool: PagePool)
      requires pool.Valid()
      ensures Valid() && this.pool == pool && live == map[] && arenas == map[]
      ensures |descs| == 7 && forall i :: 0 <= i < 7 ==> descs[i].size == 16 * Pow2(i)
    {
      this.pool := pool;
      arenas, live := map[], map[];
      var ds := InitDescs();
      descs := ds;
      new;
      InitialHeap(descs);
    }

    /** malloc_init: block sizes 16, 32, ... below half a page. */
    static method InitDescs() returns (ds: seq<Desc>)
      ensures |ds| == 7 && forall i :: 0 <= i < 7 ==> ds[i] == NewDesc(16 * Pow2(i))
    {
      ds := [];
      var size := 16;
      while size < PGSIZE / 2
        invariant size == 16 * Pow2(|ds|)
        invariant |ds| <= 7
        invariant forall i :: 0 <= i < |ds| ==> ds[i] == NewDesc(16 * Pow2(i))
        decreases PGSIZE - size
      {
        SizesBelowHalfPage(|ds|);
        ds := ds + [NewDesc(size)];
        size := size * 2;
      }
      SizesBelowHalfPage(|ds|);
    }

    /** The smallest descriptor whose blocks hold size bytes. */
    method FindDesc(size: nat) returns (d: nat)
      ensures d <= |descs|
      ensures forall i :: 0 <= i < d ==> descs[i].size < size
      ensures d < |descs| ==> size <= descs[d].size
    {
      d := 0;
      while d < |descs|
        invariant 0 <= d <= |descs|
        invariant forall i :: 0 <= i < d ==> descs[i].size < size
      {
        if descs[d].size >= size {
          return;
        }
        d := d + 1;
      }
    }

    /** A fresh page's blocks are pushed one by one on descriptor d's list. */
    method ListArena(d: nat, page: nat)
      requires d < |descs|
      modifies this`descs, this`arenas
      ensures Snapshot() == AddArena(old(Snapshot()), d, page)
    {
      var x := descs[d];
      var blocks := ArenaBlocks(page, x);
      arenas := arenas[page := Small(d, x.perArena)];
      var i := 0;
      var free := x.free;
      while i < x.perArena
        invariant 0 <= i <= x.perArena
        invariant free == x.free + blocks[..i]
      {
        free := free + [Addr(page, x.size, i)];
        i := i + 1;
      }
      assert blocks[..i] == blocks;
      descs := descs[d := x.(free := free)];
    }

    /** Pages for a new arena a; they touch no arena there is. */
    method GetPages(n: nat, ghost a: Arena) returns (page: Option<nat>)
      requires Valid() && Span(a) == n
      modifies pool.usedMap.bits
      ensures pool.Valid() && (page.None? ==> Backed() && pool.Used() == old(pool.Used()))
      ensures page.None? && n > 0 ==> IsFirstFit(old(pool.Used()), 0, n, false, None)
      ensures page.Some? ==>
        && Taken(pool.base, old(pool.Used()), pool.Used(), page.value, n) && page.value !in arenas
        && n > 0 && FreshPages(Snapshot(), page.value, n)
        && BackedBy(arenas[page.value := a], pool.base, pool.Used())
    {
      ghost var used := pool.Used();
      SpansPositive(Snapshot());
      page := pool.GetMultiple(n);
      if page.Some? {
        UnusedIsFresh(Snapshot(), pool.base, used, page.value, n);
        BackedWithMore(arenas, pool.base, used, page.value, n, a);
      }
    }

    /** A new arena for descriptor d; fails when the pool has no page. */
    method NewArena(d: nat) returns (page: Option<nat>)
      requires Valid() && d < |descs| && descs[d].free == []
      modifies this`descs, this`arenas, pool.usedMap.bits
      ensures pool.Valid() && Backed() && Sorted()
      ensures page.None? ==> Snapshot() == old(Snapshot()) && IsFirstFit(old(pool.Used()), 0, 1, false, None)
      ensures page.None? ==> pool.Used() == old(pool.Used())
      ensures page.Some? ==> Taken(pool.base, old(pool.Used()), pool.Used(), page.value, 1) && page.value !in old(arenas)
      ensures page.Some? ==>
        FreshPages(old(Snapshot()), page.value, 1) && Snapshot() == AddArena(old(Snapshot()), d, page.value)
    {
      page := GetPages(1, Small(d, descs[d].perArena));
      if page.Some? {
        ListArena(d, page.value);
      }
    }

    method TakeBlock(d: nat, size: nat) returns (b: nat, ghost blk: Block)
      requires d < |descs| && descs[d].free != [] && size <= descs[d].size
      requires PageOf(descs[d].free[0]) in arenas && arenas[PageOf(descs[d].free[0])].Small?
      requires arenas[PageOf(descs[d].free[0])].freeCnt > 0
      modifies this
      ensures b == old(descs[d].free[0]) && blk.asked == size && |blk.data| == old(descs[d].size)
      ensures Snapshot() == TakeFirst(old(Snapshot()), d, blk)
    {
      b := descs[d].free[0];
      var data := AnyBytes(descs[d].size);
      blk := Block(size, data);
      live := live[b := Block(size, data)];
      var a := arenas[PageOf(b)];
      arenas := arenas[PageOf(b) := a.(freeCnt := a.freeCnt - 1)];
      descs := descs[d := descs[d].(free := descs[d].free[1..])];
    }

    /** Makes sure descriptor d has a listed block, adding an arena if need be. */
    method EnsureListed(d: nat) returns (ok: bool, ghost unused: Option<nat>)
      requires Valid() && d < |descs|
      modifies this`descs, this`arenas, pool.usedMap.bits
      ensures pool.Valid() && Backed() && Sorted()
      ensures !ok ==> unused.None? && Lacks(old(descs[d]), old(pool.Used()))
      ensures ok ==> |descs| == |old(descs)| && descs[d].size == old(descs[d].size)
      ensures ok ==> InvBut(Snapshot(), unused) && descs[d].free != []
      ensures ok ==> unused.None? || unused == Some(PageOf(descs[d].free[0]))
      ensures unused.None? ==> Snapshot() == old(Snapshot()) && pool.Used() == old(pool.Used())
      ensures unused.Some? ==> unused.value !in old(arenas) && unused.value in arenas && Span(arenas[unused.value]) == 1
      ensures unused.Some? ==> arenas.Keys == old(arenas).Keys + {unused.value} && live == old(live)
      ensures SpansKept(old(arenas), arenas)
      ensures unused.Some? ==> Taken(pool.base, old(pool.Used()), pool.Used(), unused.value, 1)
    {
      ghost var h := Snapshot();
      unused := None;
      if descs[d].free == [] {
        var page := NewArena(d);
        if page.None? {
          return false, None;
        }
        AddArenaKeepsInv(h, d, page.value);
        assert descs[d].free[0] in descs[d].free;
        unused := page;
      }
      ok := true;
    }

    method MallocSmall(d: nat, size: nat) returns (r: Option<nat>)
      requires Valid() && d < |descs| && size <= descs[d].size
      modifies this, pool.usedMap.bits
      ensures Valid()
      ensures r.None? ==> Snapshot() == old(Snapshot()) && Lacks(old(descs[d]), old(pool.Used()))
      ensures r.None? ==> pool.Used() == old(pool.Used())
      ensures r.Some? ==> arenas.Keys == old(arenas).Keys + {PageOf(r.value)} && SpansKept(old(arenas), arenas)
      ensures r.Some? ==> PagesTaken(pool.base, old(arenas), old(pool.Used()), arenas, pool.Used(), PageOf(r.value))
      ensures r.Some? ==> r.value in live && r.value !in old(live) && live == old(live)[r.value := live[r.value]]
      ensures r.Some? ==> live[r.value].asked == size && |live[r.value].data| == old(descs[d].size)
    {
      var ok, unused := EnsureListed(d);
      if !ok {
        return None;
      }
      hide BackedBy, Taken, Lacks, IsFirstFit;
      ghost var h := Snapshot();
      TakeKeepsInv(h, d, Block(size, seq(descs[d].size, _ => 0)), unused);
      var b, blk := TakeBlock(d, size);
      TakeKeepsInv(h, d, blk, unused);
      BackedBySpans(h.arenas, arenas, pool.base, pool.Used());
      r := Some(b);
    }

    method MallocBig(size: nat) returns (r: Option<nat>)
      requires Valid() && size <= SIZE_MAX
      modifies this, pool.usedMap.bits
      ensures Valid()
      ensures r.None? ==> Snapshot() == old(Snapshot()) && pool.Used() == old(pool.Used())
      ensures r.Some? ==> arenas.Keys == old(arenas).Keys + {PageOf(r.value)} && SpansKept(old(arenas), arenas)
      ensures r.Some? ==> PagesTaken(pool.base, old(arenas), old(pool.Used()), arenas, pool.Used(), PageOf(r.value))
      ensures r.None? && BigPages(size) > 0 ==> IsFirstFit(old(pool.Used()), 0, BigPages(size), false, None)
      ensures r.Some? ==> r.value in live && r.value !in old(live) && live == old(live)[r.value := live[r.value]]
      ensures r.Some? ==> live[r.value].asked == size && |live[r.value].data| == BigPages(size) * PGSIZE - HEADER
      ensures r.Some? ==> BigPages(size) > 0
    {
      var n := BigPages(size);
      var page := GetPages(n, Big(n));
      if page.None? {
        return None;
      }
      hide Inv, InvBut, BackedBy, Taken, FreshPages, BigPages, IsFirstFit;
      if Fits(size) { BigPagesFit(size); }
      var data := AnyBytes(n * PGSIZE - HEADER);
      AddBigKeepsInv(Snapshot(), page.value, n, Block(size, data));
      arenas := arenas[page.value := Big(n)];
      live := live[page.value * PGSIZE + HEADER := Block(size, data)];
      r := Some(page.value * PGSIZE + HEADER);
    }

    /** malloc: a new live block, of at least size bytes exactly when the size does not
        wrap, on a page the pool gave up if it was no arena's yet; or nothing changed
        because no block is listed and the pool has no pages for an arena. */
    method Malloc(size: nat) returns (r: Option<nat>)
      requires Valid() && size <= SIZE_MAX
      modifies this, pool.usedMap.bits
      ensures Valid()
      ensures size == 0 ==> r.None?
      ensures r.None? ==> Snapshot() == old(Snapshot()) && pool.Used() == old(pool.Used())
      ensures r.Some? ==> arenas.Keys == old(arenas).Keys + {PageOf(r.value)} && SpansKept(old(arenas), arenas)
      ensures r.Some? ==> PagesTaken(pool.base, old(arenas), old(pool.Used()), arenas, pool.Used(), PageOf(r.value))
      ensures r.None? && size > 0 ==> Exhausted(old(descs), old(pool.Used()), size)
      ensures r.Some? ==> r.value in live && r.value !in old(live) && live == old(live)[r.value := live[r.value]]
      ensures r.Some? ==> live[r.value].asked == size
      ensures r.Some? ==> (size <= |live[r.value].data| <==> Fits(size)) && |live[r.value].data| <= SIZE_MAX
      ensures r.Some? && !Fits(size) ==> BigPages(size) > 0 && |live[r.value].data| == BigPages(size) * PGSIZE - HEADER
    {
      if size == 0 {
        return None;
      }
      var d := FindDesc(size);
      if d == |descs| {
        r := MallocBig(size);
        if r.Some? { WrappedRequestIsShort(size); }
      } else {
        SmallIsShort(Snapshot(), d);
        r := MallocSmall(d, size);
      }
    }

    /** list_remove of every block of an unused arena, then its page goes back. */
    method ReturnArena(page: nat)
      requires InvBut(Snapshot(), Some(page)) && pool.Valid() && Backed() && Sorted()
      requires page in arenas && arenas[page].Small? && arenas[page].d < |descs|
      requires arenas[page].freeCnt == descs[arenas[page].d].perArena
      modifies this`descs, this`arenas, pool.usedMap.bits
      ensures Valid() && Snapshot() == DropArena(old(Snapshot()), page)
      ensures Returned(pool.base, old(pool.Used()), pool.Used(), page, 1)
    {
      ghost var h, used := Snapshot(), pool.Used();
      DropArenaKeepsInv(h, page);
      BackedWithLess(h, pool.base, used, page);
      var d := arenas[page].d;
      var x := descs[d];
      var blocks := ArenaBlocks(page, x);
      var free := x.free;
      var i := 0;
      while i < x.perArena
        invariant 0 <= i <= x.perArena
        invariant free == RemoveAll(x.free, blocks[..i])
      {
        assert blocks[..i + 1][..i] == blocks[..i];
        free := Unlisted(free, Addr(page, x.size, i));
        i := i + 1;
      }
      assert blocks[..i] == blocks;
      descs := descs[d := x.(free := free)];
      arenas := arenas - {page};
      pool.FreeMultiple(page, 1);
    }
  
    /** The block goes back on its list; a page whose last block this was goes back
        to the page allocator. */
    method FreeSmall(b: nat)
      requires Valid() && b in live && PageOf(b) in arenas && arenas[PageOf(b)].Small?
      modifies this, pool.usedMap.bits
      ensures Valid() && IsFreed(old(Snapshot()), b, Snapshot())
      ensures PagesReturned(pool.base, old(arenas), old(pool.Used()), arenas, pool.Used(), PageOf(b))
    {
      ghost var h := Snapshot();
      GiveBackKeepsInv(h, b);
      var page := PageOf(b);
      var d := arenas[page].d;
      live := live - {b};
      descs := descs[d := descs[d].(free := [b] + descs[d].free)];
      arenas := arenas[page := arenas[page].(freeCnt := arenas[page].freeCnt + 1)];
      assert Snapshot() == GiveBack(h, b);
      BackedBySpans(h.arenas, arenas, pool.base, pool.Used());
      if arenas[page].freeCnt >= descs[d].perArena {
        assert ArenaOk(Snapshot(), page, Some(page));
        ReturnArena(page);
      } else {
        NoneUnused(Snapshot(), page);
      }
    }

    method FreeBig(b: nat)
      requires Valid() && b in live && PageOf(b) in arenas && arenas[PageOf(b)].Big?
      modifies this, pool.usedMap.bits
      ensures Valid() && IsFreed(old(Snapshot()), b, Snapshot())
      ensures PagesReturned(pool.base, old(arenas), old(pool.Used()), arenas, pool.Used(), PageOf(b))
    {
      ghost var h, used := Snapshot(), pool.Used();
      var page := PageOf(b);
      assert LiveOk(h, b) && ArenaOk(h, page, None);
      DropBigKeepsInv(h, page);
      BackedWithLess(h, pool.base, used, page);
      var n := arenas[page].pages;
      live := live - {b};
      arenas := arenas - {page};
      pool.FreeMultiple(page, n);
    }

    /** free: only p stops being live, and the pages of its arena go back to the pool
        exactly when no live block is left in it. */
    method Free(p: Option<nat>)
      requires Valid() && (p.Some? ==> p.value in live)
      modifies this, pool.usedMap.bits
      ensures Valid()
      ensures p.None? ==> Snapshot() == old(Snapshot()) && pool.Used() == old(pool.Used())
      ensures p.Some? ==> IsFreed(old(Snapshot()), p.value, Snapshot())
      ensures p.Some? ==> PagesReturned(pool.base, old(arenas), old(pool.Used()), arenas, pool.Used(), PageOf(p.value))
      ensures p.Some? ==> live == old(live) - {p.value}
      ensures p.Some? ==> (PageOf(p.value) in arenas <==> exists b <- live :: PageOf(b) == PageOf(p.value))
    {
      if p.Some? {
        assert LiveOk(Snapshot(), p.value);
        var page := PageOf(p.value);
        if arenas[page].Small? {
          FreeSmall(p.value);
        } else {
          FreeBig(p.value);
        }
        ArenaIffLive(Snapshot(), page);
      }
    }

    /** realloc: the new block starts with what the old one held, as far as both
        reach, and every other block keeps its contents.  The copy overruns the new
        block exactly when the new size wrapped and the old block is longer than the
        pages obtained; the model stops before that copy. */
    method Realloc(p: Option<nat>, size: nat) returns (r: Option<nat>, overrun: bool)
      requires Valid() && (p.Some? ==> p.value in live) && size <= SIZE_MAX
      modifies this, pool.usedMap.bits
      ensures Valid()
      ensures overrun <==> r.Some? && p.Some? && !Fits(size) &&
                           |old(live)[p.value].data| > BigPages(size) * PGSIZE - HEADER
      ensures size == 0 ==> r.None? && live == if p.Some? then old(live) - {p.value} else old(live)
      ensures size == 0 && p.Some? ==>
        PagesReturned(pool.base, old(arenas), old(pool.Used()), arenas, pool.Used(), PageOf(p.value))
      ensures size > 0 && r.None? ==> Snapshot() == old(Snapshot()) && Exhausted(old(descs), old(pool.Used()), size)
      ensures r.None? && (size > 0 || p.None?) ==> pool.Used() == old(pool.Used())
      ensures r.Some? ==>
        && r.value in live && r.value !in old(live) && live[r.value].asked == size
        && (size <= |live[r.value].data| <==> Fits(size))
      ensures r.Some? ==>
        live == (if p.Some? && !overrun then old(live) - {p.value} else old(live))[r.value := live[r.value]]
      ensures r.Some? && p.Some? && !overrun ==>
        Copied(old(live)[p.value].data, live[r.value].data, Min(|old(live)[p.value].data|, size))
      ensures r.Some? && (p.None? || overrun) ==>
        PagesTaken(pool.base, old(arenas), old(pool.Used()), arenas, pool.Used(), PageOf(r.value))
      ensures r.Some? && p.Some? && !overrun ==> exists used ::
        && PagesTaken(pool.base, old(arenas), old(pool.Used()), arenas, used, PageOf(r.value))
        && PagesReturned(pool.base, old(arenas), used, arenas, pool.Used(), PageOf(p.value))
    {
      overrun := false;
      if size == 0 {
        Free(p);
        return None, false;
      }
      r := Malloc(size);
      hide Inv, InvBut, BackedBy, BigPages, Exhausted, PagesTaken, PagesReturned, SpansKept, Copied, IsFreed;
      if p.Some? && r.Some? {
        ghost var a0, u0, a1, u1 := old(arenas), old(pool.Used()), arenas, pool.Used();
        LiveHasArena(old(Snapshot()), p.value);
        overrun := Move(p.value, r.value, size);
        if !overrun {
          ReallocPages(pool.base, a0, u0, a1, u1, arenas, pool.Used(), PageOf(r.value), PageOf(p.value));
        }
      }
    }

    /** realloc's second half: the copy, unless it would run past the block, and the free. */
    method Move(p: nat, r: nat, size: nat) returns (overrun: bool)
      requires Valid() && p in live && r in live && p != r
      modifies this, pool.usedMap.bits
      ensures Valid()
      ensures overrun <==> Min(|old(live)[p].data|, size) > |old(live)[r].data|
      ensures overrun ==> Snapshot() == old(Snapshot()) && pool.Used() == old(pool.Used())
      ensures r in live && live[r].asked == old(live)[r].asked && |live[r].data| == |old(live)[r].data|
      ensures !overrun ==>
        && Copied(old(live)[p].data, live[r].data, Min(|old(live)[p].data|, size))
        && live == (old(live) - {p})[r := live[r]]
        && PagesReturned(pool.base, old(arenas), old(pool.Used()), arenas, pool.Used(), PageOf(p))
        && PageOf(r) in arenas && SpansKept(arenas, old(arenas))
    {
      hide Inv, InvBut, BackedBy, PagesReturned, SpansKept, IsFreed, GiveBack, DropBig;
      var src := live[p].data;
      var dst := live[r].data;
      var n := Min(|src|, size);
      if n > |dst| {
        return true;
      }
      ghost var h := Snapshot();
      CopyKeepsInv(h, r, src[..n] + dst[n..]);
      live := live[r := live[r].(data := src[..n] + dst[n..])];
      ghost var h1 := Snapshot();
      Free(Some(p));
      FreedKeepsSpans(h1, p, Snapshot());
      LiveHasArena(Snapshot(), r);
      overrun := false;
    }

    /** calloc: a block whose size is the 32-bit product, zero as far as that reaches; it
        has room for the true product exactly when that does not wrap. */
    method Calloc(a: nat, b: nat) returns (r: Option<nat>, overrun: bool)
      requires Valid() && a <= SIZE_MAX && b <= SIZE_MAX
      modifies this, pool.usedMap.bits
      ensures Valid()
      ensures TurnedDown(a, b) ==> r.None?
      ensures overrun <==> r.Some? && !Fits(Product(a, b))
      ensures r.None? ==> Snapshot() == old(Snapshot()) && pool.Used() == old(pool.Used())
      ensures r.None? && !TurnedDown(a, b) && a * b > 0 ==> Exhausted(old(descs), old(pool.Used()), Product(a, b))
      ensures r.Some? ==> r.value in live && r.value !in old(live) && live == old(live)[r.value := live[r.value]]
      ensures r.Some? ==> live[r.value].asked == Product(a, b) && (a * b <= |live[r.value].data| <==> Fits(a * b))
      ensures r.Some? && !overrun ==>
        && Product(a, b) <= |live[r.value].data|
        && forall i :: 0 <= i < Product(a, b) ==> live[r.value].data[i] == 0
      ensures r.Some? ==> PagesTaken(pool.base, old(arenas), old(pool.Used()), arenas, pool.Used(), PageOf(r.value))
    {
      overrun := false;
      hide Inv, InvBut, BackedBy, Exhausted, PagesTaken, SpansKept, Product;
      var size := Product(a, b);
      ProductIsExact(a, b);
      if size < a || size < b {
        return None, false;
      }
      r := Malloc(size);
      if r.Some? {
        var dst := live[r.value].data;
        if size > |dst| {
          return r, true;
        }
        var zeros := seq(size, _ => 0);
        CopyKeepsInv(Snapshot(), r.value, zeros + dst[size..]);
        live := live[r.value := live[r.value].(data := zeros + dst[size..])];
      }
    }
  }

  /** Taking pages and then returning others, told without the arenas in between. */
  lemma ReallocPages(base: nat, a0: map<nat, Arena>, u0: seq<bool>, a1: map<nat, Arena>, u1: seq<bool>,
                     a2: map<nat, Arena>, u2: seq<bool>, r: nat, p: nat)
    requires PagesTaken(base, a0, u0, a1, u1, r) && PagesReturned(base, a1, u1, a2, u2, p)
    requires SpansKept(a0, a1) && SpansKept(a2, a1) && r in a2 && p in a0
    ensures PagesTaken(base, a0, u0, a2, u1, r) && PagesReturned(base, a0, u1, a2, u2, p)
  {
    hide Taken, Returned;
  }

  lemma FreedKeepsSpans(h: Heap, b: nat, h1: Heap)
    requires IsFreed(h, b, h1)
    ensures SpansKept(h1.arenas, h.arenas)
  {
  }

  lemma LiveHasArena(h: Heap, b: nat)
    requires Inv(h) && b in h.live
    ensures PageOf(b) in h.arenas
  {
    assert LiveOk(h, b);
  }

  /** The first n of the bytes are the same. */
  ghost predicate Copied(src: seq<nat>, dst: seq<nat>, n: nat) {
    n <= |src| && n <= |dst| && src[..n] == dst[..n]
  }

  /** Writing into a live block, within its length, disturbs nothing. */
  lemma CopyKeepsInv(h: Heap, b: nat, data: seq<nat>)
    requires Inv(h) && b in h.live && |data| == |h.live[b].data|
    ensures Inv(h.(live := h.live[b := h.live[b].(data := data)]))
  {
    var h1 := h.(live := h.live[b := h.live[b].(data := data)]);
    forall d | 0 <= d < |h1.descs|
      ensures DescOk(h1, d)
    {
      assert DescOk(h, d);
    }
    forall r | r in h1.arenas
      ensures ArenaOk(h1, r, None)
    {
      assert ArenaOk(h, r, None);
    }
    forall x | x in h1.live
      ensures LiveOk(h1, x)
    {
      assert LiveOk(h, x);
    }
  }

  lemma ArenaIffLive(h: Heap, page: nat)
    requires Inv(h)
    ensures page in h.arenas <==> exists b <- h.live :: PageOf(b) == page
  {
    if page in h.arenas {
      assert ArenaOk(h, page, None);
      if h.arenas[page].Small? {
        var b := SmallArenaHasLiveBlock(h, page);
      } else {
        DivUnique(page * PGSIZE + HEADER, PGSIZE, page);
        assert PageOf(page * PGSIZE + HEADER) == page;
      }
    }
    forall b | b in h.live
      ensures PageOf(b) in h.arenas
    {
      assert LiveOk(h, b);
    }
  }

  /** Memory that malloc hands out holds whatever it held before. */
  method AnyBytes(n: nat) returns (data: seq<nat>)
    ensures |data| == n
  {
    data := [];
    while |data| < n
      invariant |data| <= n
    {
      var x: nat := *;
      data := data + [x];
    }
  }

  /** The heap malloc_init sets up. */
  lemma InitialHeap(ds: seq<Desc>)
    requires |ds| == 7 && forall i :: 0 <= i < 7 ==> ds[i] == NewDesc(16 * Pow2(i))
    ensures Inv(Heap(ds, map[], map[]))
    ensures forall i :: 0 <= i < 7 ==> ds[i].size == 16 * Pow2(i)
    ensures forall i, j :: 0 <= i < j < 7 ==> ds[i].size < ds[j].size
  {
    forall i | 0 <= i < 7
      ensures DescOk(Heap(ds, map[], map[]), i) && 16 * Pow2(i + 1) == 2 * (16 * Pow2(i))
    {
      SizesBelowHalfPage(i);
      PerArenaPositive(16 * Pow2(i));
    }
    forall i, j | 0 <= i < j < 7
      ensures ds[i].size < ds[j].size
    {
      Bits.Pow2Grows(i + 1, j);
    }
  }

  lemma SizesBelowHalfPage(k: nat)
    ensures 16 * Pow2(k) < PGSIZE / 2 <==> k < 7
  {
    assert Pow2(6) == 64 && Pow2(7) == 128;
    if k < 7 { Bits.Pow2Grows(k, 6); } else { Bits.Pow2Grows(7, k); }
  }

  lemma PerArenaPositive(size: nat)
    requires 0 < size <= PGSIZE - HEADER
    ensures (PGSIZE - HEADER) / size > 0
  {
    MulMono(1, size, PGSIZE);
    DivBetween(PGSIZE - HEADER, size, 1, PGSIZE);
  }
}
