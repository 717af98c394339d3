/** Octal numbers in fixed-width fields: printed by the formatter, read back by the
    archive reader. */
module Octal {
  import opened Containers
  import opened Bytes

  const ZERO: Byte := 48
  const BLANK: Byte := 32
  const ULONG_MAX: nat := 0xFFFF_FFFF

  function Pow8(n: nat): (p: nat)
    ensures p >= 1
  {
    if n == 0 then 1 else 8 * Pow8(n - 1)
  }

  predicate IsDigit(c: Byte) { 48 <= c <= 55 }

  predicate AllDigits(s: seq<Byte>) { forall i :: 0 <= i < |s| ==> IsDigit(s[i]) }

  /** The number that octal digits stand for, the most significant first. */
  function Value(s: seq<Byte>): nat
    requires AllDigits(s)
  {
    if s == [] then 0 else 8 * Value(s[..|s| - 1]) + (s[|s| - 1] as int - 48)
  }

  // -------------------------------------------------------------------- printing

  /** The digits of v, least significant first, none for 0. */
  function LowFirst(v: nat): (r: seq<Byte>)
    ensures AllDigits(r)
  {
    if v == 0 then [] else [48 + v % 8] + LowFirst(v / 8)
  }

  /** v in at least `width` octal digits. */
  function Digits(v: nat, width: nat): (r: seq<Byte>)
    ensures AllDigits(r)
    decreases width, v
  {
    if width == 0 then (if v == 0 then [] else Digits(v / 8, 0) + [48 + v % 8])
    else Digits(v / 8, width - 1) + [48 + v % 8]
  }

  /** Printing and reading a number are inverse, whatever the width. */
  lemma {:induction false} ValueOfDigits(v: nat, width: nat)
    ensures Value(Digits(v, width)) == v
    decreases width, v
  {
    var d := Digits(v, width);
    if width > 0 || v > 0 {
      var head := Digits(v / 8, if width > 0 then width - 1 else 0);
      ValueOfDigits(v / 8, if width > 0 then width - 1 else 0);
      assert d[..|d| - 1] == head;
    }
  }

  /** A number that fits takes just the width. */
  lemma {:induction false} DigitsFit(v: nat, width: nat)
    requires v < Pow8(width)
    ensures |Digits(v, width)| == width
    decreases width
  {
    if width > 0 {
      DigitsFit(v / 8, width - 1);
    }
  }

  function Blanks(n: nat, c: Byte): (r: seq<Byte>)
    ensures |r| == n && forall i :: 0 <= i < n ==> r[i] == c
  {
    if n == 0 then [] else [c] + Blanks(n - 1, c)
  }

  /** Digits put out in reverse after enough zeros are the padded number. */
  lemma {:induction false} PaddedIsDigits(v: nat, width: nat)
    ensures |LowFirst(v)| <= width ==> Blanks(width - |LowFirst(v)|, ZERO) + Reversed(LowFirst(v)) == Digits(v, width)
    ensures |LowFirst(v)| > width ==> Reversed(LowFirst(v)) == Digits(v, width)
    decreases width, v
  {
    if v == 0 {
      if width > 0 {
        PaddedIsDigits(0, width - 1);
        BlanksEnd(width - 1, ZERO);
      }
    } else {
      var w := if width > 0 then width - 1 else 0;
      PaddedIsDigits(v / 8, w);
      var r := LowFirst(v);
      assert r[1..] == LowFirst(v / 8) && Reversed(r) == Reversed(r[1..]) + [r[0]];
      if |r| <= width {
        assert Blanks(width - |r|, ZERO) + Reversed(r) == (Blanks(w - |r[1..]|, ZERO) + Reversed(r[1..])) + [r[0]];
      }
    }
  }

  lemma {:induction false} BlanksEnd(n: nat, c: Byte)
    ensures Blanks(n + 1, c) == Blanks(n, c) + [c]
  {
    if n > 0 { BlanksEnd(n - 1, c); }
  }

  /** Collects the digits of a number, least significant first. */
  method CollectDigits(value: nat) returns (buf: seq<Byte>)
    ensures buf == LowFirst(value)
  {
    buf := [];
    var rest := value;
    while rest > 0
      invariant buf + LowFirst(rest) == LowFirst(value)
    {
      var digit: Byte := 48 + rest % 8;
      assert [digit] + LowFirst(rest / 8) == LowFirst(rest);
      assert buf + [digit] + LowFirst(rest / 8) == buf + ([digit] + LowFirst(rest / 8));
      buf := buf + [digit];
      rest := rest / 8;
    }
  }

  /** Puts a buffer out backwards. */
  method PutOut(pad: seq<Byte>, buf: seq<Byte>) returns (out: seq<Byte>)
    ensures out == pad + Reversed(buf)
  {
    out := pad;
    var cp: nat := |buf|;
    while cp > 0
      invariant cp <= |buf| && out == pad + Reversed(buf[cp..])
    {
      cp := cp - 1;
      assert buf[cp..][1..] == buf[cp + 1..];
      out := out + [buf[cp]];
    }
    assert buf[0..] == buf;
  }

  /** A zero-padded unsigned octal conversion: digits are collected least significant
      first, padded, and put out in reverse. */
  method FormatOctal(value: nat, width: nat) returns (out: seq<Byte>)
    requires 0 < width
    ensures out == Digits(value, width)
  {
    var buf := CollectDigits(value);
    while |buf| < 1
      invariant buf == LowFirst(value) || (value == 0 && buf == [ZERO])
    {
      buf := buf + [ZERO];
    }
    var padCnt := if |buf| < width then width - |buf| else 0;
    out := PutOut(Blanks(padCnt, ZERO), buf);
    PaddedIsDigits(value, width);
    if value == 0 {
      BlanksEnd(width - 1, ZERO);
    }
  }

  /** What is printed is cut to leave room for a null, which always follows. */
  method Print(buffer: array<Byte>, at: nat, bufSize: nat, text: seq<Byte>)
    requires 0 < bufSize && at + bufSize <= buffer.Length
    modifies buffer
    ensures
      var n := if |text| < bufSize then |text| else bufSize - 1;
      buffer[..] == Patch(old(buffer[..]), at, text[..n] + [0])
  {
    hide Patch;
    var length, p := 0, at;
    assert buffer[..] == Patch(buffer[..], at, text[..0]) by { Unpatched(buffer[..], at, text); }
    while length < |text|
      invariant length <= |text| && p == at + (if length < bufSize then length else bufSize - 1)
      invariant buffer[..] == Patch(old(buffer[..]), at, text[..p - at])
    {
      if length < bufSize - 1 {
        ghost var was := buffer[..];
        buffer[p] := text[length];
        PrintedOn(old(buffer[..]), was, buffer[..], at, text, length);
        p := p + 1;
      }
      length := length + 1;
    }
    ghost var was := buffer[..];
    buffer[p] := 0;
    Ended(old(buffer[..]), was, buffer[..], at, text[..p - at]);
  }

  lemma Unpatched(s: seq<Byte>, at: nat, text: seq<Byte>)
    requires at <= |s|
    ensures Patch(s, at, text[..0]) == s
  {
  }

  lemma Ended(first: seq<Byte>, was: seq<Byte>, now: seq<Byte>, at: nat, text: seq<Byte>)
    requires at + |text| < |first| && was == Patch(first, at, text) && now == was[at + |text| := 0]
    ensures now == Patch(first, at, text + [0])
  {
    PatchPatch(first, at, text, [0]);
    assert now == Patch(was, at + |text|, [0]);
  }

  lemma PrintedOn(first: seq<Byte>, was: seq<Byte>, now: seq<Byte>, at: nat, text: seq<Byte>, n: nat)
    requires n < |text| && at + n < |first| && was == Patch(first, at, text[..n]) && now == was[at + n := text[n]]
    ensures now == Patch(first, at, text[..n + 1])
  {
    PatchPatch(first, at, text[..n], [text[n]]);
    assert text[..n] + [text[n]] == text[..n + 1];
    assert now == Patch(was, at + n, [text[n]]);
  }

  // --------------------------------------------------------------------- reading

  /** The first position from i on that holds no digit, or the end. */
  function Run(s: seq<Byte>, i: nat): (e: nat)
    requires i <= |s|
    ensures i <= e <= |s| && (e < |s| ==> !IsDigit(s[e])) && forall k :: i <= k < e ==> IsDigit(s[k])
    decreases |s| - i
  {
    if i == |s| || !IsDigit(s[i]) then i else Run(s, i + 1)
  }

  /** A field: digits, at least one, and a space or null after them; the number must be
      a 32-bit word. */
  function FieldValue(s: seq<Byte>): Option<nat> {
    var e := Run(s, 0);
    if e == |s| || e == 0 || (s[e] != BLANK && s[e] != 0) || Value(s[..e]) > ULONG_MAX then None
    else Some(Value(s[..e]))
  }

  lemma {:induction false} ValueGrows(s: seq<Byte>, i: nat, j: nat)
    requires i <= j <= |s| && AllDigits(s[..j])
    ensures AllDigits(s[..i]) && Value(s[..i]) <= Value(s[..j])
    decreases j
  {
    assert forall k :: 0 <= k < i ==> s[..i][k] == s[..j][k];
    if i < j {
      assert s[..j][..j - 1] == s[..j - 1];
      assert forall k :: 0 <= k < j - 1 ==> s[..j - 1][k] == s[..j][k];
      ValueGrows(s, i, j - 1);
    }
  }

  lemma ValueStep(s: seq<Byte>, i: nat)
    requires i < |s| && AllDigits(s[..i]) && IsDigit(s[i])
    ensures AllDigits(s[..i + 1]) && Value(s[..i + 1]) == 8 * Value(s[..i]) + (s[i] as int - 48)
  {
    assert s[..i + 1][..i] == s[..i];
  }

  /** Accumulates the digits, giving up on overflow, a bad character or no end. */
  method ParseOctal(s: seq<Byte>) returns (value: Option<nat>)
    ensures value == FieldValue(s)
  {
    var v, ofs := 0, 0;
    while ofs < |s|
      invariant ofs <= |s| && AllDigits(s[..ofs]) && v == Value(s[..ofs]) <= ULONG_MAX
      invariant Run(s, 0) == Run(s, ofs)
    {
      var c := s[ofs];
      if IsDigit(c) {
        ValueStep(s, ofs);
        if v > ULONG_MAX / 8 {
          Overflowed(s, ofs + 1);
          return None;
        }
        v := c as int - 48 + v * 8;
      } else if c == BLANK || c == 0 {
        return if ofs > 0 then Some(v) else None;
      } else {
        return None;
      }
      ofs := ofs + 1;
    }
    return None;
  }

  lemma Overflowed(s: seq<Byte>, i: nat)
    requires i <= |s| && AllDigits(s[..i]) && Value(s[..i]) > ULONG_MAX && Run(s, 0) == Run(s, i)
    ensures FieldValue(s).None?
  {
    ValueGrows(s, i, Run(s, 0));
  }

  /** A number printed into a field that leaves room for the null is read back. */
  lemma FieldRoundTrip(v: nat, width: nat)
    requires 0 < width && v < Pow8(width) && v <= ULONG_MAX
    ensures |Digits(v, width) + [0]| == width + 1 && FieldValue(Digits(v, width) + [0]) == Some(v)
  {
    DigitsFit(v, width);
    ValueOfDigits(v, width);
    var s := Digits(v, width) + [0];
    assert s[width] == 0 && s[..width] == Digits(v, width);
    RunIs(s, 0, width);
  }

  lemma {:induction false} RunIs(s: seq<Byte>, i: nat, e: nat)
    requires i <= e < |s| && !IsDigit(s[e]) && forall k :: i <= k < e ==> IsDigit(s[k])
    ensures Run(s, i) == e
    decreases e - i
  {
    if i < e { RunIs(s, i + 1, e); }
  }

  /** The field's digits end at e. */
  ghost predicate EndsAt(s: seq<Byte>, e: nat) {
    0 < e < |s| && AllDigits(s[..e]) && (s[e] == BLANK || s[e] == 0)
  }

  /** Just the fields of octal digits up to a space or null have a value, if it is a 32-bit
      word, and it is that of the digits. */
  lemma FieldIsExact(s: seq<Byte>, v: nat)
    ensures FieldValue(s) == Some(v) <==> v <= ULONG_MAX && exists e: nat :: EndsAt(s, e) && Value(s[..e]) == v
  {
    var r := Run(s, 0);
    if FieldValue(s) == Some(v) {
      assert EndsAt(s, r);
    }
    if e: nat :| EndsAt(s, e) && Value(s[..e]) == v && v <= ULONG_MAX {
      assert forall k :: 0 <= k < e ==> s[k] == s[..e][k];
      RunIs(s, 0, e);
    }
  }
}
