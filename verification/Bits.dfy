/** The bit operations of include/hashtable.h on unbounded naturals, and what they compute when the
    bucket count is a power of two. */
module Bits {

  function Pow2(n: nat): (p: nat)
    ensures p >= 1
  {
    if n == 0 then 1 else 2 * Pow2(n - 1)
  }

  lemma {:induction false} Pow2Mono(m: nat, n: nat)
    requires m <= n
    ensures Pow2(m) <= Pow2(n)
  {
    if m < n { Pow2Mono(m, n - 1); }
  }

  lemma {:induction false} Pow2Sum(a: nat, b: nat)
    ensures Pow2(a + b) == Pow2(a) * Pow2(b)
  {
    if b > 0 {
      Pow2Sum(a, b - 1);
      assert Pow2(a) * (2 * Pow2(b - 1)) == 2 * (Pow2(a) * Pow2(b - 1));
    }
  }

  /** a & b */
  function And(a: nat, b: nat): nat {
    if a == 0 || b == 0 then 0
    else (if a % 2 == 1 && b % 2 == 1 then 1 else 0) + 2 * And(a / 2, b / 2)
  }

  /** a >> k */
  function Shr(a: nat, k: nat): nat { if k == 0 then a else Shr(a / 2, k - 1) }

  /** Masking with one less than a power of two is reduction modulo that power. */
  lemma {:induction false} MaskIsMod(x: nat, k: nat)
    ensures And(x, Pow2(k) - 1) == x % Pow2(k)
  {
    hide And;
    if k == 0 {
      NoMask(x);
    } else {
      MaskIsMod(x / 2, k - 1);
      HalfMask(x, Pow2(k - 1));
      HalfMod(x, Pow2(k - 1));
    }
  }

  lemma NoMask(x: nat)
    ensures And(x, 0) == 0
  {
  }

  lemma HalfMask(x: nat, p: nat)
    requires p >= 1
    ensures And(x, 2 * p - 1) == x % 2 + 2 * And(x / 2, p - 1)
  {
    assert (2 * p - 1) / 2 == p - 1 && (2 * p - 1) % 2 == 1;
  }

  lemma HalfMod(x: nat, p: nat)
    requires p >= 1
    ensures x % (2 * p) == x % 2 + 2 * ((x / 2) % p)
  {
    var q, r := (x / 2) / p, (x / 2) % p;
    DoubledRest(x, p, q, r);
    DivModUnique(x, 2 * p, q, x % 2 + 2 * r);
  }

  lemma MulGe(d: int, z: int)
    requires d >= 0
    ensures z >= 1 ==> d * z >= d
    ensures z <= -1 ==> d * z <= -d
  {
    assert d * z == d + d * (z - 1) == -d + d * (z + 1);
  }

  lemma MulLe(a: nat, b: nat, d: nat)
    ensures a <= b ==> a * d <= b * d
  {
    MulGe(d, b - a);
    assert b * d - a * d == d * (b - a);
  }

  lemma MulCancel(a: nat, b: nat, d: nat)
    requires a * d <= d * b && d >= 1
    ensures a <= b
  {
    MulGe(d, a - b);
    assert a * d - d * b == d * (a - b);
  }

  lemma DivModUnique(x: nat, d: nat, q: int, r: nat)
    requires d >= 1 && x == d * q + r && r < d
    ensures x / d == q && x % d == r
  {
    var q', r' := x / d, x % d;
    assert d * (q' - q) == r - r';
    MulGe(d, q' - q);
  }

  lemma {:induction false} ShrIsDiv(x: nat, k: nat)
    ensures Shr(x, k) == x / Pow2(k)
  {
    if k > 0 {
      var p := Pow2(k - 1);
      ShrIsDiv(x / 2, k - 1);
      HalfThenDiv(x, p);
    }
  }

  lemma HalfThenDiv(x: nat, p: nat)
    requires p >= 1
    ensures (x / 2) / p == x / (2 * p)
  {
    var q, r := (x / 2) / p, (x / 2) % p;
    DoubledRest(x, p, q, r);
    DivModUnique(x, 2 * p, q, x % 2 + 2 * r);
  }

  lemma DoubledRest(x: nat, p: nat, q: nat, r: nat)
    requires x / 2 == p * q + r
    ensures x == (2 * p) * q + (x % 2 + 2 * r)
  {
    assert 2 * (p * q) == (2 * p) * q;
  }

  /** The least multiple count: ceil(n / d). */
  ghost function CeilDiv(n: nat, d: nat): nat
    requires d >= 1
  {
    n / d + if n % d != 0 then 1 else 0
  }

  /** The header's ceil(n/b) = (n>>lb) + ( (n & (b-1)) ? 1:0). */
  lemma ShiftMaskIsCeil(n: nat, k: nat)
    ensures Shr(n, k) + (if And(n, Pow2(k) - 1) != 0 then 1 else 0) == CeilDiv(n, Pow2(k))
  {
    MaskIsMod(n, k);
    ShrIsDiv(n, k);
  }

  /** What makes it the ceiling: the least c with n <= c * d. */
  lemma CeilBounds(n: nat, d: nat)
    requires d >= 1
    ensures var c := CeilDiv(n, d); n <= c * d && (n > 0 ==> c >= 1 && (c - 1) * d < n)
  {
    var q, r := n / d, n % d;
    assert n == d * q + r && d * q == q * d;
    assert (q + 1) * d == q * d + d && (q - 1) * d == q * d - d;
  }

  /** After doubling, an index is the old one or the old one plus the old bucket count. */
  lemma DoubledIndex(x: nat, b: nat)
    requires b >= 1
    ensures x % (2 * b) == x % b || x % (2 * b) == x % b + b
    ensures x % (2 * b) < 2 * b && (x % (2 * b)) % b == x % b
  {
    var q, r := x / (2 * b), x % (2 * b);
    assert x == (2 * b) * q + r;
    assert (2 * b) * q == b * (2 * q);
    if r < b {
      DivModUnique(x, b, 2 * q, r);
      DivModUnique(r, b, 0, r);
    } else {
      assert b * (2 * q + 1) == b * (2 * q) + b;
      DivModUnique(x, b, 2 * q + 1, r - b);
      DivModUnique(r, b, 1, r - b);
    }
  }
}
