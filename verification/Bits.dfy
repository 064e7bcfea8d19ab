/** Bitwise AND on naturals, and the two masks the source uses: cursor masking and 8-byte alignment. */
module Bits {
  function And(a: nat, b: nat): nat {
    if a == 0 || b == 0 then 0 else 2 * And(a / 2, b / 2) + (a % 2) * (b % 2)
  }

  function Pow2(n: nat): (p: nat)
    ensures p > 0
  {
    if n == 0 then 1 else 2 * Pow2(n - 1)
  }

  lemma HalfMod(a: nat, m: nat)
    requires m > 0
    ensures a % (2 * m) == 2 * (a / 2 % m) + a % 2
  {
    var q, r := a / 2 / m, a / 2 % m;
    assert a / 2 == q * m + r;
    assert a == q * (2 * m) + (2 * r + a % 2);
    ModUnique(a, 2 * m, q, 2 * r + a % 2);
  }

  lemma ModUnique(a: int, m: int, q: int, r: int)
    requires m > 0 && a == q * m + r && 0 <= r < m
    ensures a % m == r
  {
    var q', r' := a / m, a % m;
    assert a == q' * m + r' by { DivMod(a, m); }
    assert (q - q') * m == r' - r by { Distribute(q, q', m); }
    TimesAtLeast(q - q', m);
  }

  lemma QuotientUnique(a: int, m: int, q: int, r: int)
    requires m > 0 && a == q * m + r && 0 <= r < m
    ensures a / m == q
  {
    ModUnique(a, m, q, r);
    DivMod(a, m);
    Distribute(a / m, q, m);
    TimesAtLeast(a / m - q, m);
  }

  lemma DivMod(a: int, m: int)
    requires m > 0
    ensures a == a / m * m + a % m && 0 <= a % m < m
  {
  }

  lemma Distribute(x: int, y: int, m: int)
    ensures (x - y) * m == x * m - y * m
  {
  }

  lemma TimesAtLeast(x: int, m: int)
    requires m > 0
    ensures x >= 1 ==> x * m >= m
    ensures x <= -1 ==> x * m <= -m
  {
  }

  /** Masking with a power of two minus one keeps the remainder. */
  lemma {:induction false} MaskIsMod(a: nat, n: nat)
    ensures And(a, Pow2(n) - 1) == a % Pow2(n)
  {
    if n > 0 {
      MaskIsMod(a / 2, n - 1);
      HalfMod(a, Pow2(n - 1));
      assert (Pow2(n) - 1) / 2 == Pow2(n - 1) - 1 && (Pow2(n) - 1) % 2 == 1;
    }
  }

  /** (n + 7) with its three low bits cleared. */
  function AlignUp(n: nat): (r: nat)
    ensures n <= r < n + 8 && r % 8 == 0
  {
    MaskIsMod(n + 7, 3);
    assert Pow2(3) == 8;
    n + 7 - And(n + 7, 7)
  }
}
