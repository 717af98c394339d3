/** Bytes in memory and on disk: overwriting stretches of them, 32-bit words and
    null-terminated strings. */
module Bytes {
  type Byte = b: int | 0 <= b < 256

  /** The bytes of a page. */
  const PGSIZE: nat := 4096

  /** s with the bytes from position a on replaced by data. */
  function Patch<T>(s: seq<T>, a: nat, data: seq<T>): (r: seq<T>)
    requires a + |data| <= |s|
    ensures |r| == |s|
    ensures forall i {:trigger r[i]} :: 0 <= i < |s| ==> r[i] == if a <= i < a + |data| then data[i - a] else s[i]
  {
    s[..a] + data + s[a + |data|..]
  }

  lemma PatchNothing<T>(s: seq<T>, a: nat)
    requires a <= |s|
    ensures Patch(s, a, []) == s
  {
  }

  /** Overwriting two adjoining stretches is overwriting their union. */
  lemma PatchPatch<T>(s: seq<T>, a: nat, x: seq<T>, y: seq<T>)
    requires a + |x| + |y| <= |s|
    ensures Patch(Patch(s, a, x), a + |x|, y) == Patch(s, a, x + y)
  {
    var l, r := Patch(Patch(s, a, x), a + |x|, y), Patch(s, a, x + y);
    forall i | 0 <= i < |s| ensures l[i] == r[i] {
      assert Patch(s, a, x)[i] == if a <= i < a + |x| then x[i - a] else s[i];
    }
  }

  /** Overwriting part of a stretch and putting the stretch back is
      overwriting in place. */
  lemma PatchWithin<T>(s: seq<T>, a: nat, n: nat, ofs: nat, data: seq<T>)
    requires a + n <= |s| && ofs + |data| <= n
    ensures Patch(s, a, Patch(s[a..a + n], ofs, data)) == Patch(s, a + ofs, data)
  {
    var part := Patch(s[a..a + n], ofs, data);
    var l, r := Patch(s, a, part), Patch(s, a + ofs, data);
    forall i | 0 <= i < |s| ensures l[i] == r[i] {
      if a <= i < a + n { assert l[i] == part[i - a]; }
    }
  }

  /** A stretch that misses the overwritten bytes stays. */
  lemma PatchMisses<T>(s: seq<T>, a: nat, data: seq<T>, lo: nat, hi: nat)
    requires a + |data| <= |s| && lo <= hi <= |s|
    requires hi <= a || a + |data| <= lo
    ensures Patch(s, a, data)[lo..hi] == s[lo..hi]
  {
  }

  /** A stretch around the overwritten bytes is overwritten likewise. */
  lemma PatchInside<T>(s: seq<T>, a: nat, data: seq<T>, lo: nat, hi: nat)
    requires lo <= a && a + |data| <= hi <= |s|
    ensures Patch(s, a, data)[lo..hi] == Patch(s[lo..hi], a - lo, data)
  {
    var l, r := Patch(s, a, data)[lo..hi], Patch(s[lo..hi], a - lo, data);
    forall i | 0 <= i < hi - lo ensures l[i] == r[i] {
      assert l[i] == Patch(s, a, data)[lo + i];
    }
  }

  lemma SliceOfSlice<T>(s: seq<T>, a: nat, b: nat, c: nat, d: nat)
    requires a <= b <= |s| && c <= d <= b - a
    ensures s[a..b][c..d] == s[a + c..a + d]
  {
    var l, r := s[a..b][c..d], s[a + c..a + d];
    forall i | 0 <= i < d - c ensures l[i] == r[i] {
      assert l[i] == s[a..b][c + i];
    }
  }

  // ----------------------------------------------------- words and C strings

  function Word(b: seq<Byte>): (v: nat)
    requires |b| == 4
    ensures v < 0x1_0000_0000
  {
    var b0: int, b1: int, b2: int, b3: int := b[0], b[1], b[2], b[3];
    b0 + 256 * b1 + 65536 * b2 + 16777216 * b3
  }

  function WordBytes(v: nat): (b: seq<Byte>)
    requires v < 0x1_0000_0000
    ensures |b| == 4
  {
    [v % 256, v / 256 % 256, v / 65536 % 256, v / 16777216]
  }

  /** Storing a word and loading it gives the word. */
  lemma WordRoundTrip(v: nat)
    requires v < 0x1_0000_0000
    ensures Word(WordBytes(v)) == v
  {
    var a := v / 256;
    var b := a / 256;
    assert v / 65536 == b && v / 16777216 == b / 256;
  }

  predicate NullFree(s: seq<Byte>) { forall i :: 0 <= i < |s| ==> s[i] != 0 }

  /** The characters before the terminating null. */
  function CString(field: seq<Byte>): (s: seq<Byte>)
    ensures |s| <= |field| && s == field[..|s|]
    ensures |s| < |field| ==> field[|s|] == 0
    ensures forall i :: 0 <= i < |s| ==> s[i] != 0
  {
    if field == [] || field[0] == 0 then [] else [field[0]] + CString(field[1..])
  }

  /** A null after a null-free string ends it there. */
  lemma {:induction false} CStringIs(field: seq<Byte>, s: seq<Byte>)
    requires |s| < |field| && field[..|s|] == s && field[|s|] == 0
    requires forall i :: 0 <= i < |s| ==> s[i] != 0
    ensures CString(field) == s
  {
    if s != [] {
      assert field[0] == s[0] && field[1..][..|s| - 1] == s[1..];
      CStringIs(field[1..], s[1..]);
    }
  }

  /** n bytes of s from position a; the position matters only if n > 0. */
  function Take<T>(s: seq<T>, a: nat, n: nat): (r: seq<T>)
    requires n > 0 ==> a + n <= |s|
    ensures |r| == n
  {
    if n == 0 then [] else s[a..a + n]
  }

  /** memcpy into a buffer. */
  method CopyTo(buffer: array<Byte>, at: nat, data: seq<Byte>)
    requires at + |data| <= buffer.Length
    modifies buffer
    ensures buffer[..] == Patch(old(buffer[..]), at, data)
  {
    forall i | 0 <= i < |data| {
      buffer[at + i] := data[i];
    }
  }
}
