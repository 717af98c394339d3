/** The layout of files on the device: which sectors an inode owns, and that
    live inodes own disjoint sectors, all of them marked in the free map. */
module Volumes {
  import opened Bytes
  import opened Devices
  import opened Directories
  import opened Bitmaps

  /** The part of an on-disk inode that places its data. */
  datatype Extent = Extent(start: nat, length: nat)

  /** The inode stored in a sector. */
  function NodeAt(bytes: seq<Byte>, s: nat): Extent
    requires SECTOR_SIZE * s + SECTOR_SIZE <= |bytes|
  {
    var a := SECTOR_SIZE * s;
    Extent(Word(bytes[a..a + 4]), Word(bytes[a + 4..a + 8]))
  }

  predicate InExtent(x: nat, e: Extent) { e.start <= x < e.start + SectorsFor(e.length) }

  /** The device has one bit of the map for each of its sectors. */
  predicate Sized(bytes: seq<Byte>, used: seq<bool>) {
    |bytes| == SECTOR_SIZE * |used| && |used| < 0x1_0000_0000
  }

  /** Sector x belongs to the inode in sector s: it holds the inode or its data. */
  predicate Owns(bytes: seq<Byte>, s: nat, x: nat) {
    SECTOR_SIZE * s + SECTOR_SIZE <= |bytes| && (x == s || InExtent(x, NodeAt(bytes, s)))
  }

  /** The inode in sector s, and its data, lie on the device in marked sectors. */
  ghost predicate Marked(bytes: seq<Byte>, used: seq<bool>, s: nat) {
    && s < |used| && SECTOR_SIZE * s + SECTOR_SIZE <= |bytes|
    && NodeAt(bytes, s).start + SectorsFor(NodeAt(bytes, s).length) <= |used|
    && !InExtent(s, NodeAt(bytes, s))
    && forall x: nat {:trigger Owns(bytes, s, x)} :: Owns(bytes, s, x) && x < |used| ==> used[x]
  }

  /** Two inodes share no sector. */
  ghost predicate Apart(bytes: seq<Byte>, s: nat, t: nat) {
    forall x: nat {:trigger Owns(bytes, s, x)} {:trigger Owns(bytes, t, x)} :: !(Owns(bytes, s, x) && Owns(bytes, t, x))
  }

  ghost predicate Sound(bytes: seq<Byte>, used: seq<bool>, live: set<nat>) {
    && Sized(bytes, used)
    && (forall s {:trigger Marked(bytes, used, s)} :: s in live ==> Marked(bytes, used, s))
    && (forall s, t {:trigger Apart(bytes, s, t)} :: s in live && t in live && s != t ==> Apart(bytes, s, t))
  }

  /** The bytes of the file whose inode is in sector s. */
  function DataOf(bytes: seq<Byte>, s: nat): seq<Byte>
    requires SECTOR_SIZE * s + SECTOR_SIZE <= |bytes|
    requires SECTOR_SIZE * NodeAt(bytes, s).start + NodeAt(bytes, s).length <= |bytes|
  {
    Content(bytes, NodeAt(bytes, s).start, NodeAt(bytes, s).length)
  }

  lemma MarkedFits(bytes: seq<Byte>, used: seq<bool>, s: nat)
    requires Sized(bytes, used) && Marked(bytes, used, s)
    ensures OnDevice(bytes, NodeAt(bytes, s).start, NodeAt(bytes, s).length)
    ensures SECTOR_SIZE * NodeAt(bytes, s).start + NodeAt(bytes, s).length <= |bytes|
  {
    FitsOnDevice(bytes, NodeAt(bytes, s).start, NodeAt(bytes, s).length);
  }

  /** No live inode owns sector x. */
  ghost predicate Spare(bytes: seq<Byte>, live: set<nat>, x: nat) {
    forall s {:trigger Owns(bytes, s, x)} :: s in live ==> !Owns(bytes, s, x)
  }

  /** An inode and its data survive a change that misses their sectors. */
  ghost predicate Kept(was: seq<Byte>, now: seq<Byte>, s: nat) {
    && SECTOR_SIZE * s + SECTOR_SIZE <= |was| == |now|
    && NodeAt(now, s) == NodeAt(was, s)
    && (SECTOR_SIZE * NodeAt(was, s).start + NodeAt(was, s).length <= |was| ==> DataOf(now, s) == DataOf(was, s))
  }

  lemma SliceKept(was: seq<Byte>, now: seq<Byte>, lo: nat, hi: nat, a: nat, b: nat)
    requires OnlyWithin(was, now, lo, hi) && a <= b <= |was| && (b <= lo || hi <= a || a == b)
    ensures now[a..b] == was[a..b]
  {
  }

  lemma NodeKept(was: seq<Byte>, now: seq<Byte>, lo: nat, hi: nat, s: nat)
    requires OnlyWithin(was, now, lo, hi) && SECTOR_SIZE * s + SECTOR_SIZE <= |was|
    requires SECTOR_SIZE * s + SECTOR_SIZE <= lo || hi <= SECTOR_SIZE * s
    ensures NodeAt(now, s) == NodeAt(was, s)
  {
    var a := SECTOR_SIZE * s;
    SliceKept(was, now, lo, hi, a, a + 4);
    SliceKept(was, now, lo, hi, a + 4, a + 8);
  }

  lemma LengthFits(e: Extent)
    ensures SECTOR_SIZE * e.start + e.length <= SECTOR_SIZE * (e.start + SectorsFor(e.length))
  {
  }

  /** A change inside sectors [a, b) keeps every inode that owns none of them. */
  lemma ChangeMisses(was: seq<Byte>, now: seq<Byte>, a: nat, b: nat, used: seq<bool>, s: nat)
    requires Sized(was, used) && Marked(was, used, s)
    requires OnlyWithin(was, now, SECTOR_SIZE * a, SECTOR_SIZE * b)
    requires forall x {:trigger Owns(was, s, x)} :: a <= x < b ==> !Owns(was, s, x)
    ensures Kept(was, now, s)
  {
    var e := NodeAt(was, s);
    assert !(a <= s < b) by { assert Owns(was, s, s); }
    NodeKept(was, now, SECTOR_SIZE * a, SECTOR_SIZE * b, s);
    LengthFits(e);
    var c := e.start + SectorsFor(e.length);
    assert c <= a || b <= e.start || e.start == c || b <= a by {
      if e.start < c && a < b {
        assert a <= e.start < b ==> Owns(was, s, e.start);
        assert e.start <= a < c ==> Owns(was, s, a);
      }
    }
    if b > a {
      SliceKept(was, now, SECTOR_SIZE * a, SECTOR_SIZE * b, SECTOR_SIZE * e.start, SECTOR_SIZE * e.start + e.length);
    } else {
      assert now == was;
    }
  }

  // ------------------------------------------------------------- sound volumes

  /** Sound layout depends only on the live inodes. */
  lemma KeptSound(was: seq<Byte>, now: seq<Byte>, used: seq<bool>, live: set<nat>)
    requires Sound(was, used, live) && |now| == |was|
    requires forall s {:trigger NodeAt(now, s)} :: s in live && SECTOR_SIZE * s + SECTOR_SIZE <= |now| ==> NodeAt(now, s) == NodeAt(was, s)
    ensures Sound(now, used, live)
  {
    forall s | s in live ensures Marked(now, used, s) {
      assert Marked(was, used, s);
      forall x: nat | Owns(now, s, x) && x < |used| ensures used[x] { assert Owns(was, s, x); }
    }
    forall s, t | s in live && t in live && s != t ensures Apart(now, s, t) {
      assert Marked(was, used, s) && Marked(was, used, t) && Apart(was, s, t);
      forall x: nat ensures !(Owns(now, s, x) && Owns(now, t, x)) {
        assert Owns(now, s, x) == Owns(was, s, x) && Owns(now, t, x) == Owns(was, t, x);
      }
    }
  }

  lemma Widen(was: seq<Byte>, now: seq<Byte>, lo: nat, hi: nat, lo': nat, hi': nat)
    requires OnlyWithin(was, now, lo, hi) && lo' <= lo && hi <= hi'
    ensures OnlyWithin(was, now, lo', hi')
  {
  }

  /** Changing one live file's bytes keeps every other live file, and the
      layout. */
  lemma WriteData(was: seq<Byte>, now: seq<Byte>, used: seq<bool>, live: set<nat>, s: nat)
    requires Sound(was, used, live) && s in live && Marked(was, used, s)
    requires
      var e := NodeAt(was, s);
      OnlyWithin(was, now, SECTOR_SIZE * e.start, SECTOR_SIZE * e.start + e.length)
    ensures Sound(now, used, live) && NodeAt(now, s) == NodeAt(was, s)
    ensures forall t {:trigger Kept(was, now, t)} :: t in live && t != s ==> Kept(was, now, t)
  {
    var e := NodeAt(was, s);
    var b := e.start + SectorsFor(e.length);
    LengthFits(e);
    Widen(was, now, SECTOR_SIZE * e.start, SECTOR_SIZE * e.start + e.length, SECTOR_SIZE * e.start, SECTOR_SIZE * b);
    NodeKept(was, now, SECTOR_SIZE * e.start, SECTOR_SIZE * b, s);
    forall t | t in live && t != s ensures Kept(was, now, t) {
      assert Marked(was, used, t) && Apart(was, s, t);
      forall x: nat | e.start <= x < b ensures !Owns(was, t, x) { assert Owns(was, s, x); }
      ChangeMisses(was, now, e.start, b, used, t);
    }
    forall t | t in live && SECTOR_SIZE * t + SECTOR_SIZE <= |now| ensures NodeAt(now, t) == NodeAt(was, t) {
      if t != s { assert Kept(was, now, t); }
    }
    KeptSound(was, now, used, live);
  }

  /** Changing sectors that no live inode owns keeps every live file. */
  lemma WriteSpare(was: seq<Byte>, now: seq<Byte>, used: seq<bool>, live: set<nat>, a: nat, b: nat)
    requires Sound(was, used, live) && OnlyWithin(was, now, SECTOR_SIZE * a, SECTOR_SIZE * b)
    requires forall x {:trigger Spare(was, live, x)} :: a <= x < b ==> Spare(was, live, x)
    ensures Sound(now, used, live)
    ensures forall t {:trigger Kept(was, now, t)} :: t in live ==> Kept(was, now, t)
  {
    forall t | t in live ensures Kept(was, now, t) {
      assert Marked(was, used, t);
      forall x: nat | a <= x < b ensures !Owns(was, t, x) { assert Spare(was, live, x); }
      ChangeMisses(was, now, a, b, used, t);
    }
    forall t | t in live && SECTOR_SIZE * t + SECTOR_SIZE <= |now| ensures NodeAt(now, t) == NodeAt(was, t) {
      assert Kept(was, now, t);
    }
    KeptSound(was, now, used, live);
  }

  lemma UnmarkedIsSpare(bytes: seq<Byte>, used: seq<bool>, live: set<nat>, x: nat)
    requires Sound(bytes, used, live) && x < |used| && !used[x]
    ensures Spare(bytes, live, x)
  {
    forall s | s in live ensures !Owns(bytes, s, x) {
      assert Marked(bytes, used, s);
    }
  }

  /** Marking more sectors keeps the layout sound. */
  lemma MarkMore(bytes: seq<Byte>, used: seq<bool>, next: seq<bool>, live: set<nat>)
    requires Sound(bytes, used, live) && |next| == |used|
    requires forall x :: 0 <= x < |used| && used[x] ==> next[x]
    ensures Sound(bytes, next, live)
  {
    forall s | s in live ensures Marked(bytes, next, s) {
      assert Marked(bytes, used, s);
    }
  }

  /** Releasing sectors that no live inode owns keeps the layout sound. */
  lemma ReleaseSpare(bytes: seq<Byte>, used: seq<bool>, live: set<nat>, a: nat, n: nat)
    requires Sound(bytes, used, live) && a + n <= |used|
    requires forall x {:trigger Spare(bytes, live, x)} :: a <= x < a + n ==> Spare(bytes, live, x)
    ensures Sound(bytes, Fill(used, a, n, false), live)
  {
    var next := Fill(used, a, n, false);
    forall s | s in live ensures Marked(bytes, next, s) {
      assert Marked(bytes, used, s);
      forall x: nat | Owns(bytes, s, x) && x < |next| ensures next[x] {
        assert a <= x < a + n ==> Spare(bytes, live, x);
      }
    }
  }

  /** A marked inode on sectors no live inode owns may join them. */
  lemma JoinLive(bytes: seq<Byte>, used: seq<bool>, live: set<nat>, s: nat)
    requires Sound(bytes, used, live) && Marked(bytes, used, s)
    requires forall x: nat {:trigger Owns(bytes, s, x)} :: Owns(bytes, s, x) ==> Spare(bytes, live, x)
    ensures Sound(bytes, used, live + {s})
  {
    forall t | t in live && t != s ensures Apart(bytes, s, t) && Apart(bytes, t, s) {
      forall x: nat ensures !(Owns(bytes, s, x) && Owns(bytes, t, x)) {
        if Owns(bytes, s, x) { assert Spare(bytes, live, x); }
      }
    }
  }

  lemma FewerLive(bytes: seq<Byte>, used: seq<bool>, live: set<nat>, fewer: set<nat>)
    requires Sound(bytes, used, live) && fewer <= live
    ensures Sound(bytes, used, fewer)
  {
  }

  /** What an inode owned is spare once it is no longer live. */
  lemma SpareOnceDropped(bytes: seq<Byte>, used: seq<bool>, live: set<nat>, s: nat, x: nat)
    requires Sound(bytes, used, live) && s in live && Owns(bytes, s, x)
    ensures Spare(bytes, live - {s}, x)
  {
    forall t | t in live - {s} ensures !Owns(bytes, t, x) {
      assert Apart(bytes, s, t);
    }
  }
}
