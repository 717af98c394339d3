/** 64-bit division built from the 64-by-32-bit DIVL instruction.
    Machine words are integers with their range written out; every place where
    the C code could wrap is reduced modulo 2^32 or 2^64. */
module Arithmetic {
  import opened Numbers

  /** 2^32, 2^64 and 2^63. */
  const B: nat := 0x1_0000_0000
  const BB: nat := 0x1_0000_0000_0000_0000
  const HALF: int := 0x8000_0000_0000_0000

  type U32 = x: int | 0 <= x < 0x1_0000_0000
  type U64 = x: int | 0 <= x < 0x1_0000_0000_0000_0000

  /** A result, or the divide error #DE. */
  datatype Outcome<+T> = Trap | Value(v: T)

  /** The DIVL instruction: traps on a zero divisor and on a quotient that does
      not fit in 32 bits. */
  function Divl(n: U64, d: U32): Outcome<nat> {
    if d == 0 || n / d >= B then Trap else Value(n / d)
  }

  // -------------------------------------------------------------- leading zeros

  function LeadingZeros(x: U32): (n: nat)
    requires x > 0
    decreases B - x
  {
    if x >= 0x8000_0000 then 0 else 1 + LeadingZeros(2 * x)
  }

  lemma {:induction false} ShiftedIsNormal(x: U32)
    requires x > 0
    ensures 0x8000_0000 <= x * Pow2(LeadingZeros(x)) < B
    decreases B - x
  {
    if x < 0x8000_0000 {
      ShiftedIsNormal(2 * x);
      var p := Pow2(LeadingZeros(2 * x));
      assert x * (2 * p) == 2 * x * p;
    }
  }

  lemma Pow2Values()
    ensures Pow2(2) == 4 && Pow2(4) == 0x10 && Pow2(8) == 0x100 && Pow2(16) == 0x1_0000
    ensures Pow2(31) == 0x8000_0000 && Pow2(32) == B
  {
    assert Pow2(8) == 256;
    Pow2Add(8, 8);
    Pow2Add(16, 8);
    Pow2Add(24, 8);
  }

  lemma {:induction false} LeadingZerosAtMost(x: U32, k: nat)
    requires x > 0 && x * Pow2(k) >= 0x8000_0000
    ensures LeadingZeros(x) <= k
    decreases k
  {
    if x < 0x8000_0000 && k > 0 {
      var p := Pow2(k - 1);
      assert x * (2 * p) == (2 * x) * p;
      LeadingZerosAtMost(2 * x, k - 1);
    }
  }

  lemma LeadingZerosBound(x: U32)
    requires x > 0
    ensures LeadingZeros(x) <= 31
  {
    Pow2Values();
    LeadingZerosAtMost(x, 31);
  }

  lemma {:induction false} LeadingZerosShift(x: U32, k: nat, p: nat)
    requires x > 0 && p == Pow2(k) && x * p < B
    ensures LeadingZeros(x * p) + k == LeadingZeros(x)
    decreases k
  {
    if k > 0 {
      var q := Pow2(k - 1);
      assert p == 2 * q && q >= 1;
      MulAssoc(x, 2, q);
      MulMono(1, q, 2 * x);
      LeadingZerosShift(2 * x, k - 1, q);
      assert LeadingZeros(x) == 1 + LeadingZeros(2 * x);
    }
  }

  /** nlz: five conditional shifts find the number of leading zero bits. */
  method Nlz(x0: U32) returns (n: nat)
    requires x0 > 0
    ensures n == LeadingZeros(x0)
  {
    Pow2Values();
    var x: U32 := x0;
    n := 0;
    if x <= 0x0000_FFFF {
      LeadingZerosShift(x, 16, 0x1_0000);
      n := n + 16;
      x := x * 0x1_0000;
    }
    if x <= 0x00FF_FFFF {
      LeadingZerosShift(x, 8, 0x100);
      n := n + 8;
      x := x * 0x100;
    }
    if x <= 0x0FFF_FFFF {
      LeadingZerosShift(x, 4, 0x10);
      n := n + 4;
      x := x * 0x10;
    }
    if x <= 0x3FFF_FFFF {
      LeadingZerosShift(x, 2, 4);
      n := n + 2;
      x := x * 4;
    }
    if x <= 0x7FFF_FFFF {
      n := n + 1;
    }
  }

  // --------------------------------------------------------- unsigned division

  function Wrap64(x: int): U64 { x % BB }

  /** udiv64 for a divisor below 2^32: long division with 32-bit digits. */
  function NarrowDiv(n: U64, d: U32): Outcome<nat> {
    var n1, n0 := n / B, n % B;
    if d == 0 then Trap
    else
      var rest := B * (n1 % d) + n0;
      match Divl(rest, d)
      case Trap => Trap
      case Value(q) => Value(Wrap64(q + B * (n1 / d)))
  }

  /** The last step of the wide case: the estimate q is right or one too big. */
  function Correct(n: U64, d: U64, q: nat): nat {
    if Wrap64(n - Wrap64(q - 1) * d) < d then Wrap64(q - 1) else q
  }

  /** udiv64 for a divisor of at least 2^32: estimate with its top 32 bits. */
  function WideDiv(n: U64, d: U64): Outcome<nat>
    requires d >= B
  {
    var s := LeadingZeros(d / B);
    LeadingZerosBound(d / B);
    match Divl(n / 2, Wrap64(d * Pow2(s)) / B)
    case Trap => Trap
    case Value(q) => Value(Correct(n, d, q / Pow2(31 - s)))
  }

  function Udiv64(n: U64, d: U64): Outcome<nat> {
    if d / B == 0 then NarrowDiv(n, d)
    else if n < d then Value(0)
    else WideDiv(n, d)
  }

  lemma LongDivisionRest(b: nat, r: nat, n0: nat, d: nat)
    requires d > 0 && n0 < b && r < d
    ensures (b * r + n0) / d < b
  {
    var rest := b * r + n0;
    MulMono(r + 1, d, b);
    assert rest < d * b;
    DivBounds(rest, d);
    var q := rest / d;
    if b <= q {
      MulMono(b, q, d);
    }
  }

  lemma LongDivisionSum(b: nat, h: nat, r: nat, d: nat, n0: nat, q: nat)
    requires q * d <= b * r + n0 < (q + 1) * d
    ensures (q + b * h) * d <= b * (h * d + r) + n0 < (q + b * h + 1) * d
  {
    MulAdd(h * d, r, b);
    MulAssoc(b, h, d);
    MulAdd(q, b * h, d);
    MulAdd(q + 1, b * h, d);
  }

  lemma LongDivision(b: nat, n1: nat, n0: nat, d: nat)
    requires d > 0 && n0 < b
    ensures (b * n1 + n0) / d == (b * (n1 % d) + n0) / d + b * (n1 / d)
  {
    var h, r := n1 / d, n1 % d;
    var q := (b * r + n0) / d;
    DivBounds(b * r + n0, d);
    LongDivisionSum(b, h, r, d, n0, q);
    RemainderIdentity(n1, d);
    DivUnique(b * n1 + n0, d, q + b * h);
  }

  lemma WrapIsId(x: int)
    requires 0 <= x < BB
    ensures Wrap64(x) == x
  {
  }

  /** The narrow case is exact, and DIVL does not trap in it. */
  lemma NarrowIsFloor(n: U64, d: U32)
    requires d > 0
    ensures NarrowDiv(n, d) == Value(n / d)
  {
    var n1, n0 := n / B, n % B;
    LongDivisionRest(B, n1 % d, n0, d);
    LongDivision(B, n1, n0, d);
    assert B * n1 + n0 == n;
    DivAtMost(n, d);
    WrapIsId(n / d);
  }

  lemma NormalisedBound(d1: nat, b: nat, r: nat, p: nat)
    requires r * p == b && d1 * r < b
    ensures (d1 + 1) * r <= b
  {
    if p <= d1 { MulMono(p, d1, r); }
    MulMono(d1 + 1, p, r);
  }

  lemma ProductBound(d: nat, d1: nat, b: nat, r: nat)
    requires r > 0 && d1 * b <= d < (d1 + 1) * b && (d1 + 1) * r <= b
    ensures (d1 * r) * b <= d * r < b * b
  {
    MulMono(d1 * b, d, r);
    MulMono(d + 1, (d1 + 1) * b, r);
    MulAssoc(d1, b, r);
    MulAssoc(d1, r, b);
    MulAssoc(d1 + 1, b, r);
    MulAssoc(d1 + 1, r, b);
    MulMono((d1 + 1) * r, b, b);
    assert (d + 1) * r == d * r + r;
  }

  lemma Normalised(d: nat, b: nat, r: nat, p: nat, half: nat)
    requires b > 0 && r > 0 && p > 0 && r * p == b
    requires half <= (d / b) * r < b
    ensures d * r < b * b && (d * r) / b == d / p && half <= d / p < b
  {
    var d1 := d / b;
    DivBounds(d, b);
    NormalisedBound(d1, b, r, p);
    ProductBound(d, d1, b, r);
    DivBetween(d * r, b, d1 * r, b);
    DivCancel(d, p, r);
  }

  /** The divisor handed to DIVL is d shifted until bit 31 is set: d / 2^(32-s). */
  lemma ShiftedDivisor(d: U64, s: nat)
    requires d >= B && s == LeadingZeros(d / B) && s <= 31
    ensures var v := Wrap64(d * Pow2(s)) / B;
      v == d / Pow2(32 - s) && 0x8000_0000 <= v < B
  {
    Pow2Add(s, 32 - s);
    Pow2Values();
    ShiftedIsNormal(d / B);
    Normalised(d, B, Pow2(s), Pow2(32 - s), 0x8000_0000);
    WrapIsId(d * Pow2(s));
  }

  /** The estimate is n / D for the truncated divisor D = (d / P) * P. */
  lemma EstimateIsQuotient(n: nat, v: nat, t: nat)
    requires v > 0 && t > 0
    ensures v * (2 * t) > 0 && ((n / 2) / v) / t == n / (v * (2 * t))
  {
    DivDiv(n, 2, v);
    DivDiv(n, 2 * v, t);
    assert (2 * v) * t == v * (2 * t);
  }

  /** Truncating the divisor changes the quotient by at most one. */
  lemma EstimateIsClose(n: nat, d: nat, dd: nat)
    requires 0 < dd <= d && n * (d - dd) < d * dd
    ensures n / d <= n / dd <= n / d + 1
  {
    var q := n / d;
    DivBounds(n, d);
    assert q * dd <= n by {
      MulMono(dd, d, q);
    }
    assert n < (q + 2) * dd by {
      CloseBound(n, d, dd, q);
    }
    DivBetween(n, dd, q, q + 2);
  }

  lemma CloseBound(n: nat, d: nat, dd: nat, q: nat)
    requires 0 < dd <= d && n * (d - dd) < d * dd && n < (q + 1) * d
    ensures n < (q + 2) * dd
  {
    assert n * d < d * dd + n * dd by {
      assert n * (d - dd) == n * d - n * dd;
    }
    assert d * dd + n * dd == (d + n) * dd;
    MulMono(d + n, (q + 2) * d, dd);
    assert (q + 2) * d == (q + 1) * d + d;
    MulAssoc(q + 2, d, dd);
    MulAssoc(q + 2, dd, d);
    if (q + 2) * dd <= n {
      MulMono((q + 2) * dd, n, d);
    }
  }

  /** The error bound: with D >= 2^31 P and d - D < P, n (d - D) < d D for every
      64-bit n, because 4 (P - 1) <= P^2. */
  lemma ErrorBound(n: nat, d: nat, dd: nat, p: nat, h: nat)
    requires p > 1 && h > 0 && n < 4 * (h * h) && h * p <= dd <= d < dd + p
    ensures n * (d - dd) < d * dd
  {
    var e, hp, m := d - dd, h * p, 4 * (h * h);
    assert n * e <= n * (p - 1) by { MulMono(e, p - 1, n); }
    assert n * (p - 1) < m * (p - 1) by { MulMono(n + 1, m, p - 1); }
    assert m * (p - 1) <= hp * hp by { SquareBound(h, p); }
    assert hp * hp <= dd * hp <= d * dd by { MulMono(hp, dd, hp); MulMono(hp, d, dd); }
  }

  lemma SquareBound(h: nat, p: nat)
    requires p > 0
    ensures 4 * (h * h) * (p - 1) <= (h * p) * (h * p)
  {
    assert 4 * (p - 1) <= p * p;
    MulMono(4 * (p - 1), p * p, h * h);
    assert (h * p) * (h * p) == (p * p) * (h * h);
    assert 4 * (h * h) * (p - 1) == 4 * (p - 1) * (h * h);
  }

  lemma TruncationError(d: nat, p: nat)
    requires p > 0
    ensures d / p * p <= d < d / p * p + p
  {
    DivBounds(d, p);
  }

  /** The wide case's estimate is the true quotient or one more, and DIVL does
      not trap on the way to it. */
  lemma WideEstimate(n: U64, d: U64, s: nat)
    requires B <= d <= n && s == LeadingZeros(d / B) && s <= 31
    ensures var v := Wrap64(d * Pow2(s)) / B;
      && Divl(n / 2, v).Value?
      && n / d <= Divl(n / 2, v).v / Pow2(31 - s) <= n / d + 1
  {
    var p, t := Pow2(32 - s), Pow2(31 - s);
    assert p == 2 * t;
    ShiftedDivisor(d, s);
    var v := d / p;
    var dd := v * p;
    assert (n / 2) / v < B by {
      MulMono(0x8000_0000, v, B);
      DivBetween(n / 2, v, 0, B);
    }
    EstimateIsQuotient(n, v, t);
    TruncationError(d, p);
    MulMono(0x8000_0000, v, p);
    ErrorBound(n, d, dd, p, 0x8000_0000);
    EstimateIsClose(n, d, dd);
  }

  lemma RemainderTest(n: nat, d: nat, k: nat, q: nat)
    requires k * d <= n < (k + 1) * d && k >= 1 && k <= q <= k + 1
    ensures 0 <= n - (q - 1) * d <= n
    ensures n - (q - 1) * d < d <==> q == k + 1
  {
    if q == k {
      assert (k - 1) * d == k * d - d;
      MulMono(k - 1, k, d);
    }
  }

  /** Either estimate is corrected to the true quotient, without wrapping. */
  lemma CorrectIsFloor(n: U64, d: U64, q: nat)
    requires 0 < d <= n && n / d <= q <= n / d + 1
    ensures Correct(n, d, q) == n / d
  {
    var k := n / d;
    DivAtMost(n, d);
    assert k >= 1 by {
      MulMono(1, d, n + 1);
      DivBetween(n, d, 1, n + 1);
    }
    DivBounds(n, d);
    RemainderTest(n, d, k, q);
    WrapIsId(q - 1);
    WrapIsId(n - (q - 1) * d);
  }

  lemma WideIsFloor(n: U64, d: U64)
    requires B <= d <= n
    ensures WideDiv(n, d) == Value(n / d)
  {
    LeadingZerosBound(d / B);
    var s := LeadingZeros(d / B);
    WideEstimate(n, d, s);
    CorrectIsFloor(n, d, Divl(n / 2, Wrap64(d * Pow2(s)) / B).v / Pow2(31 - s));
  }

  lemma SmallOverBig(n: nat, d: nat)
    requires n < d
    ensures n / d == 0
  {
    DivUnique(n, d, 0);
  }

  /** udiv64 is floor division; it traps exactly on a zero divisor. */
  lemma UdivIsFloor(n: U64, d: U64)
    ensures Udiv64(n, d) == if d == 0 then Trap else Value(n / d)
  {
    if 0 < d < B {
      NarrowIsFloor(n, d);
    } else if n < d {
      SmallOverBig(n, d);
    } else if d > 0 {
      WideIsFloor(n, d);
    }
  }

  /** umod64 subtracts in 64 bits and returns the low 32 bits. */
  function Umod64(n: U64, d: U64): Outcome<nat> {
    match Udiv64(n, d)
    case Trap => Trap
    case Value(q) => Value(Wrap64(n - Wrap64(d * q)) % B)
  }

  /** umod64 is the remainder reduced modulo 2^32, hence exact just when it fits. */
  lemma UmodIsRemainder(n: U64, d: U64)
    requires d > 0
    ensures Umod64(n, d) == Value(n % d % B)
    ensures Umod64(n, d) == Value(n % d) <==> n % d < B
  {
    UdivIsFloor(n, d);
    RemainderIdentity(n, d);
    WrapSub(n, d * (n / d));
    LowExact(n % d);
  }

  lemma LowExact(r: nat)
    ensures r % B == r <==> r < B
  {
  }

  lemma WrapSub(n: U64, x: nat)
    requires x <= n
    ensures Wrap64(n - Wrap64(x)) == n - x
  {
    WrapIsId(x);
    WrapIsId(n - x);
  }

  // ----------------------------------------------------------- signed division

  predicate IsI64(x: int) { -HALF <= x < HALF }

  /** Conversion of a 64-bit pattern to int64_t. */
  function ToSigned(x: U64): int {
    if x < HALF then x else x - BB
  }

  function ToSigned32(x: U32): int {
    if x < 0x8000_0000 then x else x - B
  }

  function Magnitude(n: int): U64
    requires IsI64(n)
  {
    if n >= 0 then n else Wrap64(-n)
  }

  function Negate(negative: bool, s: int): int {
    if negative then ToSigned(Wrap64(-s)) else s
  }

  /** sdiv64; the negation is done in 64 bits, so -2^63 is its own negative. */
  function Sdiv64(n: int, d: int): Outcome<int>
    requires IsI64(n) && IsI64(d)
  {
    match Udiv64(Magnitude(n), Magnitude(d))
    case Trap => Trap
    case Value(q) => Value(Negate((n < 0) != (d < 0), ToSigned(Wrap64(q))))
  }

  function Abs(x: int): nat { if x < 0 then -x else x }

  /** Division rounding toward zero. */
  function Truncate(n: int, d: int): int
    requires d != 0
  {
    var q := Abs(n) / Abs(d);
    if (n < 0) != (d < 0) then -q else q
  }

  lemma MagnitudeIsAbs(n: int)
    requires IsI64(n)
    ensures Magnitude(n) == Abs(n) <= HALF
  {
    if n < 0 { WrapIsId(-n); }
  }

  lemma SignedRoundTrip(x: int)
    requires IsI64(x)
    ensures ToSigned(Wrap64(x)) == x
  {
    if x < 0 {
      assert x % BB == x + BB;
    }
  }

  lemma OnlyUnitKeepsHalf(a: nat, b: nat)
    requires b > 0 && a <= HALF <= a / b
    ensures a == HALF && b == 1
  {
    DivBounds(a, b);
    MulMono(HALF, a / b, b);
    DivAtMost(a, b);
  }

  /** sdiv64 truncates toward zero, except for the one quotient that does not
      exist in 64 bits: -2^63 / -1 gives -2^63. */
  lemma SdivTruncates(n: int, d: int)
    requires IsI64(n) && IsI64(d) && d != 0
    ensures Sdiv64(n, d) == if n == -HALF && d == -1 then Value(-HALF) else Value(Truncate(n, d))
    ensures n == -HALF && d == -1 ==> Truncate(n, d) == HALF
  {
    MagnitudeIsAbs(n);
    MagnitudeIsAbs(d);
    var a, b := Abs(n), Abs(d);
    UdivIsFloor(a, b);
    var q := a / b;
    DivAtMost(a, b);
    SignedCases(q, (n < 0) != (d < 0));
    if q == HALF {
      OnlyUnitKeepsHalf(a, b);
    }
  }

  lemma SignedCases(q: int, negative: bool)
    requires 0 <= q <= HALF
    ensures Negate(negative, ToSigned(Wrap64(q))) == if negative then -q else if q == HALF then -HALF else q
  {
    WrapIsId(q);
    SignedRoundTrip(-q);
    WrapIsId(HALF);
  }

  /** smod64 subtracts in 64 bits and returns the low 32 bits as an int32_t. */
  function Smod64(n: int, d: int): Outcome<int>
    requires IsI64(n) && IsI64(d)
  {
    match Sdiv64(n, d)
    case Trap => Trap
    case Value(q) => Value(ToSigned32(Wrap64(n - Wrap64(d * q)) % B))
  }

  lemma LowBits(n: int, y: int)
    ensures Wrap64(n - Wrap64(y)) % B == (n - y) % B
  {
    var k := y / BB;
    assert y == k * BB + y % BB;
    var z := n - y % BB;
    var j := z / BB;
    assert z == j * BB + z % BB;
    assert z % BB == (n - y) + B * (B * (k - j));
    ModShift(n - y, B * (k - j));
  }

  lemma ModShift(x: int, k: int)
    ensures (x + B * k) % B == x % B
  {
  }

  /** smod64 is the remainder with the sign of n, reduced to 32 bits; it is exact
      just when that remainder is an int32_t. */
  lemma SmodIsRemainder(n: int, d: int)
    requires IsI64(n) && IsI64(d) && d != 0
    ensures var r := n - d * Truncate(n, d);
      && Smod64(n, d) == Value(ToSigned32(r % B))
      && (Smod64(n, d) == Value(r) <==> -0x8000_0000 <= r < 0x8000_0000)
  {
    SdivTruncates(n, d);
    var r := n - d * Truncate(n, d);
    LowBits(n, d * Sdiv64(n, d).v);
    if n == -HALF && d == -1 {
      assert (n - d * -HALF) % B == 0;
    }
    Signed32Exact(r);
  }

  lemma Signed32Exact(r: int)
    ensures ToSigned32(r % B) == r <==> -0x8000_0000 <= r < 0x8000_0000
  {
  }
}
