/** The page allocator run by one caller at a time, on top of the bitmap. */
module PagePools {
  import opened Containers
  import opened Bitmaps

  /** A pool of pages, numbered from base, with one bit per page. */
  class PagePool {
    const base: nat
    const usedMap: Bitmap

    ghost predicate Valid()
      reads this, usedMap, usedMap.bits
    {
      usedMap.Valid()
    }

    ghost function Used(): seq<bool>
      requires Valid()
      reads this, usedMap, usedMap.bits
    {
      usedMap.Contents()
    }

    /** Page number `page` belongs to the pool and is handed out. */
    ghost predicate InUse(page: nat)
      requires Valid()
      reads this, usedMap, usedMap.bits
    {
      base <= page < base + |Used()| && Used()[page - base]
    }

    constructor (base: nat, pageCnt: nat)
      ensures Valid() && fresh(usedMap) && fresh(usedMap.bits)
      ensures this.base == base && Used() == seq(pageCnt, _ => false)
    {
      this.base := base;
      usedMap := new Bitmap(pageCnt);
    }

    /** Hands out the first run of cnt free pages; none for cnt == 0. */
    method GetMultiple(cnt: nat) returns (r: Option<nat>)
      requires Valid()
      modifies usedMap.bits
      ensures Valid()
      ensures cnt == 0 ==> r.None?
      ensures r.None? ==> Used() == old(Used())
      ensures r.None? && cnt > 0 ==> IsFirstFit(old(Used()), 0, cnt, false, None)
      ensures r.Some? ==>
        && base <= r.value && IsFirstFit(old(Used()), 0, cnt, false, Some(r.value - base))
        && Used() == Fill(old(Used()), r.value - base, cnt, true)
    {
      if cnt == 0 {
        return None;
      }
      var idx := usedMap.ScanAndFlip(0, cnt, false);
      r := if idx.Some? then Some(base + idx.value) else None;
    }

    /** Takes back cnt pages that were handed out. */
    method FreeMultiple(page: nat, cnt: nat)
      requires Valid() && base <= page && page - base + cnt <= |Used()|
      requires AllAre(Used(), page - base, cnt, true)
      modifies usedMap.bits
      ensures Valid() && Used() == Fill(old(Used()), page - base, cnt, false)
    {
      usedMap.SetMultiple(page - base, cnt, false);
    }
  }
}
