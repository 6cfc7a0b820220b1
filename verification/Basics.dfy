// Arithmetic and small types that several of the models share.
module Basics {

  datatype Option<T> = None | Some(value: T)

  type Byte = b: int | 0 <= b < 256
  type Word = w: int | 0 <= w < 0x1_0000_0000

  const NUL := '\0'

  function Min(a: int, b: int): int {
    if a < b then a else b
  }

  lemma MulLe(a: int, b: int, t: int)
    requires a <= b && 0 <= t
    ensures a * t <= b * t
  {
  }

  lemma SmallMultiple(x: int, d: int)
    requires 0 < d && -d < d * x < d
    ensures x == 0
  {
    assert x >= 1 ==> d * x >= d;
    assert x <= -1 ==> d * x <= -d;
  }

  lemma DivModUnique(a: int, d: int, q: int, r: int)
    requires 0 < d && 0 <= r < d && a == d * q + r
    ensures a / d == q && a % d == r
  {
    var q', r' := a / d, a % d;
    assert d * (q' - q) == r - r';
    SmallMultiple(q' - q, d);
  }

  function Pow2(n: nat): (p: int)
    ensures 1 <= p
  {
    if n == 0 then 1 else 2 * Pow2(n - 1)
  }

  // << and >> on unsigned values below modulus, for shifts below their width
  function Shl(x: int, k: nat, modulus: int): int
    requires 0 < modulus
  {
    x * Pow2(k) % modulus
  }

  function Shr(x: int, k: nat): int {
    x / Pow2(k)
  }

  lemma {:induction false} Pow2Le(i: nat, j: nat)
    requires i <= j
    ensures Pow2(i) <= Pow2(j)
  {
    if i == j {
    } else {
      Pow2Le(i, j - 1);
    }
  }

  lemma {:induction false} Pow2Add(i: nat, j: nat)
    ensures Pow2(i + j) == Pow2(i) * Pow2(j)
  {
    if i == 0 {
    } else {
      Pow2Add(i - 1, j);
      assert Pow2(i + j) == 2 * Pow2(i - 1 + j);
    }
  }
}
