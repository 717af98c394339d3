/** Powers of two and facts about division that the word-level modules share. */
module Numbers {

  function Min(a: nat, b: nat): nat { if a < b then a else b }

  function Pow2(n: nat): (r: nat)
    ensures r > 0
  {
    if n == 0 then 1 else 2 * Pow2(n - 1)
  }

  lemma {:induction false} Pow2Add(a: nat, b: nat)
    ensures Pow2(a + b) == Pow2(a) * Pow2(b)
  {
    if a > 0 {
      Pow2Add(a - 1, b);
      assert Pow2(a + b) == 2 * Pow2(a - 1 + b) && Pow2(a) == 2 * Pow2(a - 1);
      hide Pow2;
      MulAssoc(2, Pow2(a - 1), Pow2(b));
    }
  }

  lemma DivBounds(a: nat, b: nat)
    requires b > 0
    ensures a / b * b <= a < (a / b + 1) * b
  {
  }

  lemma MulMono(a: nat, b: nat, c: nat)
    requires a <= b
    ensures a * c <= b * c
  {
  }

  lemma MulAssoc(a: nat, b: nat, c: nat)
    ensures (a * b) * c == a * (b * c) == a * (c * b)
  {
  }

  lemma MulAdd(a: nat, b: nat, c: nat)
    ensures (a + b) * c == a * c + b * c == c * (a + b)
  {
  }

  lemma DivUnique(a: nat, b: nat, q: nat)
    requires b > 0 && q * b <= a < (q + 1) * b
    ensures a / b == q
  {
    DivBounds(a, b);
    var r := a / b;
    if r + 1 <= q {
      MulMono(r + 1, q, b);
    } else if q + 1 <= r {
      MulMono(q + 1, r, b);
    }
  }

  lemma DivBetween(a: nat, b: nat, lo: nat, hi: nat)
    requires b > 0 && lo * b <= a < hi * b
    ensures lo <= a / b < hi
  {
    DivBounds(a, b);
    var q := a / b;
    if q + 1 <= lo { MulMono(q + 1, lo, b); }
    if hi <= q { MulMono(hi, q, b); }
  }

  lemma DivAtMost(n: nat, d: nat)
    requires d > 0
    ensures n / d <= n
  {
    MulMono(1, d, n + 1);
    DivBetween(n, d, 0, n + 1);
  }

  lemma DivDiv(a: nat, b: nat, c: nat)
    requires b > 0 && c > 0
    ensures b * c > 0 && (a / b) / c == a / (b * c)
  {
    var k := a / b;
    var q := k / c;
    DivBounds(a, b);
    DivBounds(k, c);
    MulMono(q * c, k, b);
    MulAssoc(q, c, b);
    MulMono(k + 1, (q + 1) * c, b);
    MulAssoc(q + 1, c, b);
    MulMono(1, b, c);
    DivUnique(a, b * c, q);
  }

  lemma DivCancel(a: nat, b: nat, c: nat)
    requires b > 0 && c > 0
    ensures c * b > 0 && (a * c) / (c * b) == a / b
  {
    var q := a / b;
    DivBounds(a, b);
    MulMono(q * b, a, c);
    MulMono(a + 1, (q + 1) * b, c);
    MulAdd(a, 1, c);
    MulAssoc(q, b, c);
    MulAssoc(q + 1, b, c);
    MulMono(1, c, b);
    DivUnique(a * c, c * b, q);
  }

  lemma RemainderIdentity(n: nat, d: nat)
    requires d > 0
    ensures n == n / d * d + n % d == d * (n / d) + n % d && 0 <= n % d < d
  {
  }

  lemma ModUnique(x: nat, m: nat, q: nat, r: nat)
    requires m > 0 && x == q * m + r && r < m
    ensures x % m == r
  {
    MulAdd(q, 1, m);
    DivUnique(x, m, q);
    RemainderIdentity(x, m);
  }
}
