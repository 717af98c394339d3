/** Bitmaps: an array of 32-bit words that simulates an array of bits. */
module Bitmaps {
  import opened Numbers
  import opened Bits
  import opened Containers

  const ELEM_BITS: nat := 32

  // ------------------------------------------------------- sequences of bits

  /** Bits start .. start + cnt are all equal to v. */
  predicate AllAre(s: seq<bool>, start: nat, cnt: nat, v: bool)
    requires start + cnt <= |s|
  {
    forall i :: start <= i < start + cnt ==> s[i] == v
  }

  /** The first group of cnt bits equal to v at or after start. */
  ghost predicate IsFirstFit(s: seq<bool>, start: nat, cnt: nat, v: bool, r: Option<nat>) {
    match r
    case Some(k) =>
      && start <= k && k + cnt <= |s| && AllAre(s, k, cnt, v)
      && (forall j {:trigger AllAre(s, j, cnt, v)} :: start <= j < k ==> !AllAre(s, j, cnt, v))
    case None =>
      forall j {:trigger AllAre(s, j, cnt, v)} :: start <= j && j + cnt <= |s| ==> !AllAre(s, j, cnt, v)
  }

  function Fill(s: seq<bool>, start: nat, cnt: nat, v: bool): (r: seq<bool>)
    requires start + cnt <= |s|
    ensures |r| == |s|
    ensures forall i :: 0 <= i < |s| ==> r[i] == if start <= i < start + cnt then v else s[i]
  {
    s[..start] + seq(cnt, _ => v) + s[start + cnt..]
  }

  // --------------------------------------------------------------- word masks

  /** The word with only the bit for idx set. */
  function BitMask(idx: nat): nat { Pow2(idx % ELEM_BITS) }

  function Complement(w: nat): int { Pow2(ELEM_BITS) - 1 - w }

  lemma MarkBit(w: nat, k: nat)
    requires w < Pow2(ELEM_BITS) && k < ELEM_BITS
    ensures Or(w, Pow2(k)) < Pow2(ELEM_BITS)
    ensures forall i :: 0 <= i < ELEM_BITS ==> (Bit(Or(w, Pow2(k)), i) <==> i == k || Bit(w, i))
  {
    Pow2Grows(k + 1, ELEM_BITS);
    OrBound(ELEM_BITS, w, Pow2(k));
    forall i | 0 <= i < ELEM_BITS
      ensures Bit(Or(w, Pow2(k)), i) <==> i == k || Bit(w, i)
    {
      BitOr(w, Pow2(k), i);
      BitPow2(k, i);
    }
  }

  lemma ResetBit(w: nat, k: nat)
    requires w < Pow2(ELEM_BITS) && k < ELEM_BITS
    ensures Pow2(k) < Pow2(ELEM_BITS)
    ensures And(w, Complement(Pow2(k))) < Pow2(ELEM_BITS)
    ensures forall i :: 0 <= i < ELEM_BITS ==> (Bit(And(w, Complement(Pow2(k))), i) <==> i != k && Bit(w, i))
  {
    Pow2Grows(k + 1, ELEM_BITS);
    AndBound(w, Complement(Pow2(k)));
    forall i | 0 <= i < ELEM_BITS
      ensures Bit(And(w, Complement(Pow2(k))), i) <==> i != k && Bit(w, i)
    {
      BitAnd(w, Complement(Pow2(k)), i);
      BitNot(ELEM_BITS, Pow2(k), i);
      BitPow2(k, i);
    }
  }

  lemma TestBit(w: nat, k: nat)
    ensures And(w, Pow2(k)) != 0 <==> Bit(w, k)
  {
    BitAnd(w, Pow2(k), k);
    BitPow2(k, k);
    ZeroHasNoBits(k);
    if And(w, Pow2(k)) != 0 {
      var i := SomeBit(And(w, Pow2(k)));
      BitAnd(w, Pow2(k), i);
      BitPow2(k, i);
    }
  }

  lemma {:induction false} SomeBit(w: nat) returns (i: nat)
    requires w != 0
    ensures Bit(w, i)
  {
    if w % 2 == 1 {
      i := 0;
    } else {
      var j := SomeBit(w / 2);
      i := j + 1;
    }
  }

  /** Marking a bit below n leaves the bits from n on clear. */
  lemma MarkBelow(w: nat, k: nat, n: nat)
    requires w < Pow2(n) && k < n
    ensures Or(w, Pow2(k)) < Pow2(n)
  {
    Pow2Grows(k + 1, n);
    OrBound(n, w, Pow2(k));
  }

  lemma InLastWord(idx: nat, cnt: nat)
    requires idx < cnt && cnt % ELEM_BITS != 0 && idx / ELEM_BITS == (cnt + ELEM_BITS - 1) / ELEM_BITS - 1
    ensures idx % ELEM_BITS < cnt % ELEM_BITS
  {
  }

  /** Words for cnt bits, with the bits left over in the last word clear. */
  ghost predicate Tidy(words: seq<nat>, cnt: nat) {
    && |words| == (cnt + ELEM_BITS - 1) / ELEM_BITS
    && (forall i :: 0 <= i < |words| ==> words[i] < Pow2(ELEM_BITS))
    && (|words| > 0 && cnt % ELEM_BITS != 0 ==> words[|words| - 1] < Pow2(cnt % ELEM_BITS))
  }

  /** The array of cnt bits that the words stand for. */
  ghost function BitsOf(words: seq<nat>, cnt: nat): (s: seq<bool>)
    requires |words| == (cnt + ELEM_BITS - 1) / ELEM_BITS
    ensures |s| == cnt
  {
    seq(cnt, i requires 0 <= i < cnt => Bit(words[i / ELEM_BITS], i % ELEM_BITS))
  }

  // -------------------------------------------------------------- the bitmap

  class Bitmap {
    const bitCnt: nat
    const bits: array<nat>

    ghost predicate Valid()
      reads this, bits
    {
      && bits.Length == (bitCnt + ELEM_BITS - 1) / ELEM_BITS
      && (forall i :: 0 <= i < bits.Length ==> bits[i] < Pow2(ELEM_BITS))
      && (bits.Length > 0 && bitCnt % ELEM_BITS != 0 ==> bits[bits.Length - 1] < Pow2(bitCnt % ELEM_BITS))
    }

    /** The array of bits this stands for. */
    ghost function Contents(): (s: seq<bool>)
      requires Valid()
      reads this, bits
      ensures |s| == bitCnt
    {
      seq(bitCnt, i requires 0 <= i < bitCnt reads this, bits => Bit(bits[i / ELEM_BITS], i % ELEM_BITS))
    }

    constructor (cnt: nat)
      ensures Valid() && bitCnt == cnt && fresh(bits)
      ensures Contents() == seq(cnt, _ => false)
    {
      bitCnt := cnt;
      bits := new nat[(cnt + ELEM_BITS - 1) / ELEM_BITS](_ => 0);
      new;
      forall i | 0 <= i < bitCnt
        ensures !Bit(bits[i / ELEM_BITS], i % ELEM_BITS)
      {
        ZeroHasNoBits(i % ELEM_BITS);
      }
    }

    method Mark(idx: nat)
      requires Valid() && idx < bitCnt
      modifies bits
      ensures Valid() && Contents() == old(Contents())[idx := true]
    {
      hide Bit, Pow2, Or;
      MarkBit(bits[idx / ELEM_BITS], idx % ELEM_BITS);
      if bitCnt % ELEM_BITS != 0 && idx / ELEM_BITS == bits.Length - 1 {
        InLastWord(idx, bitCnt);
        MarkBelow(bits[idx / ELEM_BITS], idx % ELEM_BITS, bitCnt % ELEM_BITS);
      }
      bits[idx / ELEM_BITS] := Or(bits[idx / ELEM_BITS], BitMask(idx));
    }

    method Reset(idx: nat)
      requires Valid() && idx < bitCnt
      modifies bits
      ensures Valid() && Contents() == old(Contents())[idx := false]
    {
      hide Bit, Pow2, And;
      ResetBit(bits[idx / ELEM_BITS], idx % ELEM_BITS);
      AndBound(bits[idx / ELEM_BITS], Complement(Pow2(idx % ELEM_BITS)));
      bits[idx / ELEM_BITS] := And(bits[idx / ELEM_BITS], Complement(BitMask(idx)));
    }

    method Test(idx: nat) returns (b: bool)
      requires Valid() && idx < bitCnt
      ensures b == Contents()[idx]
    {
      TestBit(bits[idx / ELEM_BITS], idx % ELEM_BITS);
      b := And(bits[idx / ELEM_BITS], BitMask(idx)) != 0;
    }

    method SetMultiple(start: nat, cnt: nat, v: bool)
      requires Valid() && start + cnt <= bitCnt
      modifies bits
      ensures Valid() && Contents() == Fill(old(Contents()), start, cnt, v)
    {
      var i := 0;
      while i < cnt
        invariant 0 <= i <= cnt && Valid()
        invariant Contents() == Fill(old(Contents()), start, i, v)
      {
        if v { Mark(start + i); } else { Reset(start + i); }
        i := i + 1;
      }
    }

    method Contains(start: nat, cnt: nat, v: bool) returns (found: bool)
      requires Valid() && start + cnt <= bitCnt
      ensures found <==> !AllAre(Contents(), start, cnt, !v)
    {
      var i := 0;
      while i < cnt
        invariant 0 <= i <= cnt
        invariant AllAre(Contents(), start, i, !v)
      {
        var b := Test(start + i);
        if b == v { return true; }
        i := i + 1;
      }
      return false;
    }

    method Scan(start: nat, cnt: nat, v: bool) returns (r: Option<nat>)
      requires Valid() && start <= bitCnt
      ensures IsFirstFit(Contents(), start, cnt, v, r)
    {
      if cnt <= bitCnt {
        var last := bitCnt - cnt;
        var i := start;
        while i <= last
          invariant start <= i
          invariant forall j {:trigger AllAre(Contents(), j, cnt, v)} ::
              start <= j < i && j <= last ==> !AllAre(Contents(), j, cnt, v)
        {
          var bad := Contains(i, cnt, !v);
          if !bad { return Some(i); }
          i := i + 1;
        }
      }
      return None;
    }

    /** First fit: the earliest group of cnt bits equal to v is inverted, and no
        other bit changes. */
    method ScanAndFlip(start: nat, cnt: nat, v: bool) returns (r: Option<nat>)
      requires Valid() && start <= bitCnt
      modifies bits
      ensures Valid() && IsFirstFit(old(Contents()), start, cnt, v, r)
      ensures r.None? ==> unchanged(bits)
      ensures r.Some? ==> Contents() == Fill(old(Contents()), r.value, cnt, !v)
    {
      r := Scan(start, cnt, v);
      if r.Some? {
        SetMultiple(r.value, cnt, !v);
      }
    }

    /** bitmap_read, once the bytes are in: the words replace the old ones, and the bits
        left over in the last word are cleared. */
    method Load(words: seq<nat>)
      requires Valid() && |words| == bits.Length && forall i :: 0 <= i < |words| ==> words[i] < Pow2(ELEM_BITS)
      modifies bits
      ensures Valid() && Contents() == BitsOf(words, bitCnt)
      ensures Tidy(words, bitCnt) ==> bits[..] == words
    {
      hide Bit, Pow2, And;
      var k := 0;
      while k < bits.Length
        invariant k <= bits.Length && forall i :: 0 <= i < k ==> bits[i] == words[i]
      {
        bits[k] := words[k];
        k := k + 1;
      }
      var last := bitCnt % ELEM_BITS;
      if bitCnt > 0 && last != 0 {
        AndMask(bits[bits.Length - 1], last);
        MaskKeeps(bits[bits.Length - 1], last);
        bits[bits.Length - 1] := And(bits[bits.Length - 1], Pow2(last) - 1);
        forall i | 0 <= i < bitCnt && i / ELEM_BITS == bits.Length - 1 ensures i % ELEM_BITS < last {
          InLastWord(i, bitCnt);
        }
      }
    }

    /** What the map's words say is what it contains. */
    lemma WordsAre()
      requires Valid()
      ensures Tidy(bits[..], bitCnt) && Contents() == BitsOf(bits[..], bitCnt)
    {
    }
  }

  /** Taking the remainder by 2^n keeps the bits below n, and a word below 2^n. */
  lemma MaskKeeps(w: nat, n: nat)
    ensures w % Pow2(n) < Pow2(n) && w % Pow2(n) <= w && (w < Pow2(n) ==> w % Pow2(n) == w)
    ensures forall i :: 0 <= i < n ==> (Bit(w % Pow2(n), i) <==> Bit(w, i))
  {
    hide Bit, Pow2;
    RemainderBelow(w, Pow2(n));
    forall i | 0 <= i < n ensures Bit(w % Pow2(n), i) <==> Bit(w, i) {
      BitOfRemainder(w, n, i);
    }
  }

  lemma RemainderBelow(w: nat, p: nat)
    requires p > 0
    ensures w % p < p && w % p <= w && (w < p ==> w % p == w)
  {
    if w < p {
      ModUnique(w, p, 0, w);
    } else {
      assert w % p < p;
    }
  }

  lemma {:induction false} BitOfRemainder(w: nat, n: nat, i: nat)
    requires i < n
    ensures Bit(w % Pow2(n), i) <==> Bit(w, i)
  {
    assert Pow2(n) == 2 * Pow2(n - 1);
    hide Pow2;
    HalveMod(w, Pow2(n - 1));
    var r, h := w % Pow2(n), w / 2 % Pow2(n - 1);
    assert r / 2 == h && r % 2 == w % 2;
    if i > 0 {
      BitOfRemainder(w / 2, n - 1, i - 1);
      assert Bit(r, i) == Bit(h, i - 1);
    }
  }
}
