/** Bitwise operations on unsigned machine words, given bit by bit. */
module Bits {
  import opened Numbers

  /** Bit i of w. */
  function Bit(w: nat, i: nat): bool {
    if i == 0 then w % 2 == 1 else Bit(w / 2, i - 1)
  }

  function And(x: nat, y: nat): nat {
    if x == 0 || y == 0 then 0
    else 2 * And(x / 2, y / 2) + (x % 2) * (y % 2)
  }

  function Or(x: nat, y: nat): nat {
    if x == 0 then y else if y == 0 then x
    else 2 * Or(x / 2, y / 2) + if x % 2 == 1 || y % 2 == 1 then 1 else 0
  }

  lemma {:induction false} ZeroHasNoBits(i: nat)
    ensures !Bit(0, i)
  {
    if i > 0 { ZeroHasNoBits(i - 1); }
  }

  lemma {:induction false} BitAnd(x: nat, y: nat, i: nat)
    ensures Bit(And(x, y), i) <==> Bit(x, i) && Bit(y, i)
  {
    if x == 0 || y == 0 {
      ZeroHasNoBits(i);
    } else {
      assert And(x, y) / 2 == And(x / 2, y / 2) && And(x, y) % 2 == (x % 2) * (y % 2);
      if i > 0 { BitAnd(x / 2, y / 2, i - 1); }
    }
  }

  lemma {:induction false} BitOr(x: nat, y: nat, i: nat)
    ensures Bit(Or(x, y), i) <==> Bit(x, i) || Bit(y, i)
  {
    if x == 0 || y == 0 {
      ZeroHasNoBits(i);
    } else if i > 0 {
      BitOr(x / 2, y / 2, i - 1);
    }
  }

  lemma {:induction false} BitPow2(k: nat, i: nat)
    ensures Bit(Pow2(k), i) <==> i == k
  {
    if k == 0 {
      if i > 0 { ZeroHasNoBits(i - 1); }
    } else if i > 0 {
      BitPow2(k - 1, i - 1);
    }
  }

  /** Complement within n bits. */
  lemma {:induction false} BitNot(n: nat, x: nat, i: nat)
    requires x < Pow2(n) && i < n
    ensures Bit(Pow2(n) - 1 - x, i) <==> !Bit(x, i)
  {
    var y := Pow2(n) - 1 - x;
    if i > 0 {
      assert y / 2 == Pow2(n - 1) - 1 - x / 2;
      BitNot(n - 1, x / 2, i - 1);
    }
  }

  lemma {:induction false} AndBound(x: nat, y: nat)
    ensures And(x, y) <= x && And(x, y) <= y
  {
    if x != 0 && y != 0 {
      AndBound(x / 2, y / 2);
      assert (x % 2) * (y % 2) <= x % 2 && (x % 2) * (y % 2) <= y % 2;
    }
  }

  lemma {:induction false} OrBound(n: nat, x: nat, y: nat)
    requires x < Pow2(n) && y < Pow2(n)
    ensures Or(x, y) < Pow2(n)
  {
    if x != 0 && y != 0 {
      OrBound(n - 1, x / 2, y / 2);
    }
  }

  lemma {:induction false} Pow2Grows(a: nat, b: nat)
    requires a <= b
    ensures Pow2(a) <= Pow2(b)
  {
    if a < b { Pow2Grows(a, b - 1); }
  }

  lemma AndStep(x: nat, p: nat)
    requires p > 0
    ensures And(x, 2 * p - 1) == 2 * And(x / 2, p - 1) + x % 2
  {
    var y := 2 * p - 1;
    assert y / 2 == p - 1 && y % 2 == 1;
  }

  /** Masking with 2^k - 1 takes the remainder modulo 2^k. */
  lemma {:induction false} AndMask(x: nat, k: nat)
    ensures And(x, Pow2(k) - 1) == x % Pow2(k)
  {
    if k > 0 {
      AndMask(x / 2, k - 1);
      assert Pow2(k) == 2 * Pow2(k - 1);
      hide And, Pow2;
      AndStep(x, Pow2(k - 1));
      HalveMod(x, Pow2(k - 1));
    }
  }

  lemma HalveMod(x: nat, p: nat)
    requires p > 0
    ensures x % (2 * p) == 2 * ((x / 2) % p) + x % 2
  {
    var h := x / 2;
    var q, r := h / p, h % p;
    assert h == q * p + r;
    assert x == q * (2 * p) + (2 * r + x % 2);
    ModUnique(x, 2 * p, q, 2 * r + x % 2);
  }

  // --------------------------------------------------------- powers of two

  /** x with its lowest-order bit turned off. */
  function TurnOffLeast(x: nat): nat
    requires x > 0
  {
    And(x, x - 1)
  }

  /** The largest power of two not above x. */
  function FloorPow2(x: nat): nat
    requires x > 0
  {
    if x == 1 then 1 else 2 * FloorPow2(x / 2)
  }

  lemma {:induction false} AndSelf(x: nat)
    ensures And(x, x) == x
  {
    if x > 0 {
      AndSelf(x / 2);
      assert And(x, x) == 2 * And(x / 2, x / 2) + (x % 2) * (x % 2);
      hide And;
      if x % 2 == 0 {
      }
    }
  }

  lemma TurnOffHalves(x: nat)
    requires x > 0
    ensures TurnOffLeast(x) == if x % 2 == 1 then x - 1 else 2 * TurnOffLeast(x / 2)
  {
    var h := x / 2;
    if x % 2 == 1 {
      AndSelf(h);
      assert (x - 1) / 2 == h && (x - 1) % 2 == 0;
    } else {
      assert (x - 1) / 2 == h - 1;
    }
  }

  /** Turning off the lowest bit gives 0 just for a power of two, and otherwise
      keeps the highest bit. */
  lemma {:induction false} TurnOffKeepsTop(x: nat)
    requires x > 0
    ensures TurnOffLeast(x) < x
    ensures TurnOffLeast(x) == 0 <==> x == FloorPow2(x)
    ensures TurnOffLeast(x) > 0 ==> FloorPow2(TurnOffLeast(x)) == FloorPow2(x)
  {
    TurnOffHalves(x);
    if x % 2 == 0 {
      TurnOffKeepsTop(x / 2);
    } else if x > 1 {
      FloorPow2Even(x);
    }
  }

  lemma {:induction false} FloorPow2Even(x: nat)
    requires x > 1
    ensures FloorPow2(x) % 2 == 0
  {
  }

  lemma {:induction false} FloorPow2IsPow2(x: nat) returns (k: nat)
    requires x > 0
    ensures FloorPow2(x) == Pow2(k) && Pow2(k) <= x < 2 * Pow2(k)
  {
    if x == 1 {
      k := 0;
    } else {
      var j := FloorPow2IsPow2(x / 2);
      k := j + 1;
    }
  }

  lemma {:induction false} FloorPow2OfPow2(k: nat)
    ensures FloorPow2(Pow2(k)) == Pow2(k)
  {
    if k > 0 { FloorPow2OfPow2(k - 1); }
  }
}
