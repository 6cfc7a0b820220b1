// Conversions between 32-bit integers and binary32 (IEEE 754-2008, section 3.4)
// as data lab/bits.c performs them: float_i2f, float_f2i and float_twice.
module FloatBits {
  import opened Basics

  lemma Pow2Values()
    ensures Pow2(8) == 0x100 && Pow2(23) == 0x80_0000 && Pow2(24) == 0x100_0000
    ensures Pow2(31) == 0x8000_0000 && Pow2(32) == 0x1_0000_0000
  {
    assert Pow2(8) == 0x100;
    Pow2Add(8, 8);
    Pow2Add(8, 16);
    Pow2Add(8, 24);
    assert Pow2(24) == 2 * Pow2(23) && Pow2(32) == 2 * Pow2(31);
  }

  // ---------- bit operations on naturals ----------

  function BitAnd(x: nat, y: nat): nat {
    if x == 0 then 0 else (if x % 2 == 1 && y % 2 == 1 then 1 else 0) + 2 * BitAnd(x / 2, y / 2)
  }

  function BitOr(x: nat, y: nat): nat
    decreases x + y
  {
    if x == 0 && y == 0 then 0 else (if x % 2 == 1 || y % 2 == 1 then 1 else 0) + 2 * BitOr(x / 2, y / 2)
  }

  lemma {:induction false} AndLow(x: nat, n: nat)
    ensures BitAnd(x, Pow2(n) - 1) == x % Pow2(n)
    decreases n
  {
    if n > 0 {
      AndLow(x / 2, n - 1);
      HalfMod(x, Pow2(n - 1));
      assert (Pow2(n) - 1) / 2 == Pow2(n - 1) - 1;
    } else {
      AndZero(x);
    }
  }

  lemma AndZero(x: nat)
    ensures BitAnd(x, 0) == 0
  {
  }

  // x << k without a width, and x >> k
  function Up(x: nat, k: nat): nat {
    if k == 0 then x else 2 * Up(x, k - 1)
  }

  function Down(x: nat, k: nat): nat
    decreases k
  {
    if k == 0 then x else Down(x / 2, k - 1)
  }

  lemma {:induction false} UpIs(x: nat, k: nat)
    ensures Up(x, k) == x * Pow2(k)
  {
    if k == 0 {
    } else {
      UpIs(x, k - 1);
      assert x * (2 * Pow2(k - 1)) == 2 * (x * Pow2(k - 1));
    }
  }

  lemma {:induction false} DownIs(x: nat, k: nat)
    ensures Down(x, k) == x / Pow2(k)
    decreases k
  {
    if k == 0 {
    } else {
      DownIs(x / 2, k - 1);
      HalfDiv(x, Pow2(k - 1));
    }
  }

  lemma {:induction false} ShiftZero(k: nat)
    ensures Up(0, k) == 0 && Down(0, k) == 0
  {
    if k == 0 {
    } else {
      ShiftZero(k - 1);
    }
  }

  lemma {:induction false} AndShift(x: nat, mask: nat, lo: nat)
    ensures BitAnd(x, Up(mask, lo)) == Up(BitAnd(Down(x, lo), mask), lo)
    decreases lo
  {
    if lo == 0 {
    } else {
      AndShift(x / 2, mask, lo - 1);
      if x == 0 { ShiftZero(lo); }
    }
  }

  // A mask of n ones above lo zeros selects a field.
  lemma AndField(x: nat, lo: nat, n: nat, mask: nat)
    requires mask == (Pow2(n) - 1) * Pow2(lo)
    ensures BitAnd(x, mask) == x / Pow2(lo) % Pow2(n) * Pow2(lo)
  {
    UpIs(Pow2(n) - 1, lo);
    AndShift(x, Pow2(n) - 1, lo);
    DownIs(x, lo);
    AndLow(x / Pow2(lo), n);
    UpIs(BitAnd(Down(x, lo), Pow2(n) - 1), lo);
  }

  lemma HalfDiv(x: nat, p: int)
    requires 1 <= p
    ensures x / 2 / p == x / (2 * p)
  {
    var q, r := x / 2 / p, x / 2 % p;
    assert x == 2 * (p * q + r) + x % 2;
    assert x == (2 * p) * q + (2 * r + x % 2);
    DivModUnique(x, 2 * p, q, 2 * r + x % 2);
  }

  lemma HalfMod(x: nat, p: int)
    requires 1 <= p
    ensures x % (2 * p) == x % 2 + 2 * (x / 2 % p)
  {
    var q, r := x / 2 / p, x / 2 % p;
    assert x == 2 * (p * q + r) + x % 2;
    assert x == (2 * p) * q + (2 * r + x % 2);
    DivModUnique(x, 2 * p, q, 2 * r + x % 2);
  }

  // Fields that do not overlap are or-ed by adding.
  lemma {:induction false} OrUp(x: nat, y: nat, k: nat)
    requires x < Pow2(k)
    ensures BitOr(x, Up(y, k)) == x + Up(y, k)
    decreases k
  {
    if k > 0 {
      OrUp(x / 2, y, k - 1);
    } else {
      OrZero(y);
    }
  }

  lemma OrDisjoint(x: nat, y: nat, k: nat, z: nat)
    requires x < Pow2(k) && z == y * Pow2(k)
    ensures BitOr(x, z) == x + z
  {
    UpIs(y, k);
    OrUp(x, y, k);
  }

  lemma {:induction false} OrZero(y: nat)
    ensures BitOr(0, y) == y
  {
    if y == 0 {
    } else {
      OrZero(y / 2);
    }
  }

  // ---------- binary32 ----------

  const SIGN := 0x8000_0000
  const IMPLICIT := 0x80_0000 // 2^23

  predicate Negative(w: Word) {
    w >= SIGN
  }

  function Exponent(w: Word): (e: int)
    ensures 0 <= e < 256
  {
    w / IMPLICIT % 256
  }

  function Fraction(w: Word): (f: int)
    ensures 0 <= f < IMPLICIT
  {
    w % IMPLICIT
  }

  predicate Finite(w: Word) {
    Exponent(w) != 255
  }

  function Encode(negative: bool, e: int, f: int): (w: Word)
    requires 0 <= e < 256 && 0 <= f < IMPLICIT
    ensures Negative(w) == negative && Exponent(w) == e && Fraction(w) == f
  {
    (if negative then SIGN else 0) + e * IMPLICIT + f
  }

  lemma EncodeFields(w: Word)
    ensures w == Encode(Negative(w), Exponent(w), Fraction(w))
  {
  }

  // Significand and magnitude, in units of 2^-149, the smallest subnormal.
  function Significand(w: Word): int {
    if Exponent(w) == 0 then Fraction(w) else IMPLICIT + Fraction(w)
  }

  function Magnitude(w: Word): int {
    Significand(w) * Pow2(if Exponent(w) == 0 then 0 else Exponent(w) - 1)
  }

  // The value of a finite word times 2^149.
  function Value(w: Word): int {
    if Negative(w) then -Magnitude(w) else Magnitude(w)
  }

  function Abs(x: int): int {
    if x < 0 then -x else x
  }

  // Rounding to nearest, ties to even (section 4.3.1): no finite number is closer to t, and the
  // significand is even if another number is just as close. t is in units of 2^-149.
  ghost predicate IsNearest(w: Word, t: int) {
    && Finite(w)
    && forall v: Word {:trigger Value(v)} | Finite(v) ::
         && Abs(Value(w) - t) <= Abs(Value(v) - t)
         && (Abs(Value(w) - t) == Abs(Value(v) - t) && Value(v) != Value(w) ==> Significand(w) % 2 == 0)
  }

  // Rounding never reverses an order.
  lemma NearestMonotone(x: int, y: int, wx: Word, wy: Word)
    requires x <= y && IsNearest(wx, x) && IsNearest(wy, y)
    ensures Value(wx) <= Value(wy) || x == y
  {
    var a, b := Value(wx), Value(wy);
    assert Abs(a - x) <= Abs(b - x) && Abs(b - y) <= Abs(a - y);
  }

  // ---------- no number lies between neighbours ----------

  lemma MulAssoc(a: int, b: int, c: int)
    ensures a * (b * c) == (a * b) * c
  {
  }

  // A number of at least the same exponent is a multiple of the spacing.
  lemma CoarserNotBetween(m: int, d: nat, e: nat, s: int)
    requires e <= d
    ensures m * Pow2(d) <= s * Pow2(e) || (s + 1) * Pow2(e) <= m * Pow2(d)
  {
    var q := Pow2(d - e);
    Pow2Add(d - e, e);
    MulAssoc(m, q, Pow2(e));
    if m * q <= s { MulLe(m * q, s, Pow2(e)); } else { MulLe(s + 1, m * q, Pow2(e)); }
  }

  lemma MulMono(a: int, b: int, x: int, y: int)
    requires 0 <= a <= b && 0 <= x <= y
    ensures a * x <= b * y
  {
    assert a * x <= a * y && a * y <= b * y;
  }

  // A number of a smaller exponent is below the binade.
  lemma FinerBelow(m: int, d: nat, e: nat, s: int)
    requires d < e && 0 <= m < 2 * IMPLICIT && IMPLICIT <= s
    ensures m * Pow2(d) <= s * Pow2(e)
  {
    Pow2Le(d, e - 1);
    MulMono(m, 2 * s, Pow2(d), Pow2(e - 1));
    MulAssoc(s, 2, Pow2(e - 1));
  }

  // s and s + 1 are neighbouring significands of exponent e, which is not subnormal.
  lemma NoneBetween(w: Word, e: int, s: int)
    requires 1 <= e && IMPLICIT <= s
    ensures Magnitude(w) <= s * Pow2(e - 1) || (s + 1) * Pow2(e - 1) <= Magnitude(w)
  {
    var d := if Exponent(w) == 0 then 0 else Exponent(w) - 1;
    if e - 1 <= d { CoarserNotBetween(Significand(w), d, e - 1, s); } else { FinerBelow(Significand(w), d, e - 1, s); }
  }

  // ---------- rounding determines every bit but the sign of zero ----------

  // The place of the significand: magnitude is Significand times 2 to this power.
  function Scale(w: Word): nat {
    if Exponent(w) == 0 then 0 else Exponent(w) - 1
  }

  lemma SameScale(w: Word, v: Word)
    requires Magnitude(w) == Magnitude(v) && Negative(w) == Negative(v) && Exponent(w) == Exponent(v)
    ensures w == v
  {
    var p := Pow2(Scale(w));
    MulCancel(Significand(w), Significand(v), p);
    EncodeFields(w);
    EncodeFields(v);
  }

  lemma MulCancel(a: int, b: int, p: int)
    requires 0 < p && a * p == b * p
    ensures a == b
  {
    if a < b { MulLe(a + 1, b, p); } else if b < a { MulLe(b + 1, a, p); }
  }

  // A larger exponent means a larger magnitude.
  lemma LargerExponent(w: Word, v: Word)
    requires Exponent(w) < Exponent(v)
    ensures Magnitude(w) < Magnitude(v)
  {
    var d, e := Scale(w), Scale(v);
    Pow2Le(d, e);
    if Exponent(w) == 0 {
      MulLe(IMPLICIT, Significand(v), Pow2(e));
      MulLe(1, Pow2(e), IMPLICIT);
    } else {
      Pow2Le(d + 1, e);
      MulLe(Significand(w) + 1, 2 * IMPLICIT, Pow2(d));
      MulLe(IMPLICIT, Significand(v), Pow2(e));
      MulLe(Pow2(d + 1), Pow2(e), IMPLICIT);
      assert (Significand(w) + 1) * Pow2(d) == Significand(w) * Pow2(d) + Pow2(d);
      assert 2 * IMPLICIT * Pow2(d) == IMPLICIT * Pow2(d + 1);
    }
  }

  // Words of the same value and sign are the same word.
  lemma SameMagnitude(w: Word, v: Word)
    requires Magnitude(w) == Magnitude(v) && Negative(w) == Negative(v)
    ensures w == v
  {
    if Exponent(w) < Exponent(v) {
      LargerExponent(w, v);
    } else if Exponent(v) < Exponent(w) {
      LargerExponent(v, w);
    } else {
      SameScale(w, v);
    }
  }

  // The next word after one of even significand has the next significand.
  lemma NextWord(w: Word) returns (v: Word)
    requires Finite(w) && Significand(w) % 2 == 0
    ensures Finite(v) && Negative(v) == Negative(w) && Exponent(v) == Exponent(w)
    ensures Significand(v) == Significand(w) + 1 && Magnitude(w) < Magnitude(v)
  {
    v := Encode(Negative(w), Exponent(w), Fraction(w) + 1);
    assert (Significand(w) + 1) * Pow2(Scale(w)) == Significand(w) * Pow2(Scale(w)) + Pow2(Scale(w));
  }

  // A larger magnitude is at least that of the next significand.
  lemma NoneSkipped(w: Word, v: Word, x: Word)
    requires Exponent(v) == Exponent(w) && Significand(v) == Significand(w) + 1 && Magnitude(w) < Magnitude(x)
    ensures Magnitude(v) <= Magnitude(x)
  {
    if Exponent(x) == Exponent(w) {
      if Significand(x) <= Significand(w) { MulLe(Significand(x), Significand(w), Pow2(Scale(w))); }
      MulLe(Significand(v), Significand(x), Pow2(Scale(w)));
    } else if Exponent(x) < Exponent(w) {
      LargerExponent(x, w);
    } else {
      LargerExponent(v, x);
    }
  }

  // Between two magnitudes of even significand lies another.
  lemma OddBetween(w: Word, x: Word) returns (v: Word)
    requires Finite(w) && Finite(x) && Negative(w) == Negative(x) && Magnitude(w) < Magnitude(x)
    requires Significand(w) % 2 == 0 && Significand(x) % 2 == 0
    ensures Finite(v) && Negative(v) == Negative(w) && Magnitude(w) < Magnitude(v) < Magnitude(x)
  {
    v := NextWord(w);
    NoneSkipped(w, v, x);
    if Magnitude(v) == Magnitude(x) { SameMagnitude(v, x); }
  }

  // Of two numbers as near to t as possible, one would not have an even significand.
  lemma NoTie(w: Word, x: Word, t: int)
    requires IsNearest(w, t) && IsNearest(x, t) && Negative(w) == Negative(x)
    ensures Magnitude(w) >= Magnitude(x)
  {
    if Magnitude(w) < Magnitude(x) {
      assert Value(w) != Value(x) && Abs(Value(w) - t) == Abs(Value(x) - t);
      var v := OddBetween(w, x);
      var nearer := Abs(Value(v) - t);
      assert false;
    }
  }

  // There is one nearest word of each sign.
  lemma NearestUnique(w: Word, x: Word, t: int)
    requires IsNearest(w, t) && IsNearest(x, t) && Negative(w) == Negative(x)
    ensures w == x
  {
    NoTie(w, x, t);
    NoTie(x, w, t);
    SameMagnitude(w, x);
  }

  // ---------- float_i2f ----------

  // The normalising loop: u is doubled until its top bit is set.
  function Normalise(u: int, order: int): (r: (int, int))
    requires 1 <= u < 0x1_0000_0000
    ensures SIGN <= r.0 < 0x1_0000_0000
    decreases 0x1_0000_0000 - u
  {
    if u >= SIGN then (u, order) else Normalise(2 * u, order - 1)
  }

  function RoundsUp(u: int): bool {
    u % 256 > 0x80 - u / 256 % 2
  }

  // The top 24 bits of u, rounded; a carry out of them moves to the exponent.
  function Rounded(negative: bool, u: int, order: int): Word
    requires SIGN <= u < 0x1_0000_0000 && 0 <= order < 255
  {
    var s := u / 256 + if RoundsUp(u) then 1 else 0;
    Encode(negative, if s == 2 * IMPLICIT then order + 1 else order, s % IMPLICIT)
  }

  lemma {:induction false} NormaliseScale(u: int, order: int, n: int, k: nat)
    requires 1 <= n && u == n * Pow2(k) && 1 <= u < 0x1_0000_0000
    ensures var (v, o) := Normalise(u, order);
      var j := order - o; 0 <= j && v == n * Pow2(k + j) && k + j <= 31
    decreases 0x1_0000_0000 - u
  {
    if u < SIGN {
      assert n * (2 * Pow2(k)) == 2 * (n * Pow2(k));
      NormaliseScale(2 * u, order - 1, n, k + 1);
    } else if k > 31 {
      Pow2Values();
      Pow2Le(32, k);
      MulMono(1, n, Pow2(32), Pow2(k));
    }
  }

  // Distances from (256 s + rem) units to the neighbours s and s + 1 of 256 units each.
  lemma Distances(s: int, rem: int, unit: int)
    requires 0 <= rem < 256 && 0 < unit
    ensures (256 * s + rem) * unit - s * (256 * unit) == rem * unit
    ensures (s + 1) * (256 * unit) - (256 * s + rem) * unit == (256 - rem) * unit
    ensures rem < 128 ==> rem * unit < (256 - rem) * unit
    ensures rem == 128 ==> rem * unit == (256 - rem) * unit
    ensures rem > 128 ==> rem * unit > (256 - rem) * unit
    ensures 0 <= rem * unit && 0 < (256 - rem) * unit && rem * unit + (256 - rem) * unit == 256 * unit
  {
    assert (256 * s + rem) * unit == (256 * s) * unit + rem * unit;
    assert s * (256 * unit) == (256 * s) * unit;
    assert (s + 1) * (256 * unit) == s * (256 * unit) + 256 * unit;
    assert (256 - rem) * unit == 256 * unit - rem * unit;
    assert 128 * unit + 128 * unit == 256 * unit;
    if rem < 128 { MulLe(rem + 1, 128, unit); } else { MulLe(128, rem, unit); }
    MulLe(0, rem, unit);
    MulLe(rem + 1, 256, unit);
    assert (rem + 1) * unit == rem * unit + unit;
  }

  lemma RoundedMagnitude(negative: bool, u: int, order: int)
    requires SIGN <= u < 0x1_0000_0000 && 1 <= order < 254
    ensures var w := Rounded(negative, u, order);
      var s := if RoundsUp(u) then u / 256 + 1 else u / 256;
      Finite(w) && Negative(w) == negative && Magnitude(w) == s * Pow2(order - 1) && Significand(w) % 2 == s % 2
  {
    assert Pow2(order) == 2 * Pow2(order - 1);
    assert IMPLICIT * (2 * Pow2(order - 1)) == (2 * IMPLICIT) * Pow2(order - 1);
  }

  // The rounded magnitude against that of any other word
  lemma RoundedAgainst(negative: bool, u: int, order: int, unit: int, v: Word)
    requires SIGN <= u < 0x1_0000_0000 && 1 <= order < 254 && 0 < unit && Pow2(order - 1) == 256 * unit
    ensures var m, t := Magnitude(Rounded(negative, u, order)), u * unit;
      && Abs(m - t) <= Abs(Magnitude(v) - t) && Abs(m - t) < t
      && (Abs(m - t) == Abs(Magnitude(v) - t) && Magnitude(v) != m ==>
            Significand(Rounded(negative, u, order)) % 2 == 0)
  {
    RoundedMagnitude(negative, u, order);
    assert u == 256 * (u / 256) + u % 256;
    NearestMagnitude(Magnitude(Rounded(negative, u, order)), v, u / 256, u % 256, unit, order);
  }

  // The rounded significand is the nearest number to u units, ties to even.
  lemma RoundedNearest(negative: bool, u: int, order: int, unit: int)
    requires SIGN <= u < 0x1_0000_0000 && 1 <= order < 254 && 0 < unit && Pow2(order - 1) == 256 * unit
    ensures IsNearest(Rounded(negative, u, order), if negative then -(u * unit) else u * unit)
  {
    var w, t := Rounded(negative, u, order), u * unit;
    RoundedMagnitude(negative, u, order);
    var t' := if negative then -t else t;
    forall v: Word | Finite(v)
      ensures Abs(Value(w) - t') <= Abs(Value(v) - t')
      ensures Abs(Value(w) - t') == Abs(Value(v) - t') && Value(v) != Value(w) ==> Significand(w) % 2 == 0
    {
      RoundedAgainst(negative, u, order, unit, v);
      NearestAt(w, v, t);
    }
  }

  lemma MagnitudePositive(w: Word)
    ensures 0 <= Magnitude(w)
  {
    MulLe(0, Significand(w), Pow2(if Exponent(w) == 0 then 0 else Exponent(w) - 1));
  }

  // Among magnitudes, s' units of 256 is nearest to t = (256 s + rem) units, ties to even.
  lemma NearestMagnitude(m: int, v: Word, s: int, rem: int, unit: int, order: int)
    requires IMPLICIT <= s && 0 <= rem < 256 && 0 < unit && 1 <= order && Pow2(order - 1) == 256 * unit
    requires m == (if rem > 0x80 - s % 2 then s + 1 else s) * (256 * unit)
    ensures var t := (256 * s + rem) * unit;
      && Abs(m - t) <= Abs(Magnitude(v) - t) && Abs(m - t) < t
      && (Abs(m - t) == Abs(Magnitude(v) - t) && Magnitude(v) != m ==> rem == 128)
  {
    Distances(s, rem, unit);
    NoneBetween(v, order, s);
    MulLe(1, s, 256 * unit);
  }

  lemma NearestAt(w: Word, v: Word, t: int)
    requires Abs(Magnitude(w) - t) <= Abs(Magnitude(v) - t) && Abs(Magnitude(w) - t) < t
    requires Abs(Magnitude(w) - t) == Abs(Magnitude(v) - t) && Magnitude(v) != Magnitude(w) ==> Significand(w) % 2 == 0
    ensures var t' := if Negative(w) then -t else t;
      && Abs(Value(w) - t') <= Abs(Value(v) - t')
      && (Abs(Value(w) - t') == Abs(Value(v) - t') && Value(v) != Value(w) ==> Significand(w) % 2 == 0)
  {
    MagnitudePositive(v);
    SignedNearest(Magnitude(w), Magnitude(v), t, Negative(w), Negative(v));
  }

  // What holds for magnitudes holds for numbers of sign negative against those of either sign.
  lemma SignedNearest(m: int, x: int, t: int, negative: bool, other: bool)
    requires Abs(m - t) <= Abs(x - t) && Abs(m - t) < t && 0 <= x
    ensures var m', x', t' := if negative then -m else m, if other then -x else x, if negative then -t else t;
      && Abs(m' - t') <= Abs(x' - t')
      && (Abs(m' - t') == Abs(x' - t') && x' != m' ==> Abs(m - t) == Abs(x - t) && x != m)
  {
  }

  // float_i2f as a function of x
  function I2f(x: int): Word
    requires -SIGN <= x < SIGN
  {
    if x == 0 then 0 else
      var (u, order) := Normalise(Abs(x), 158);
      NormaliseScale(Abs(x), 158, Abs(x), 0);
      Rounded(x < 0, u, order)
  }

  lemma ZeroNearest()
    ensures IsNearest(0, 0)
  {
    forall v: Word | Finite(v) ensures Abs(Value(0)) <= Abs(Value(v)) { MagnitudePositive(v); }
  }

  // The normalised bits of x, and its magnitude in units of 2^(order - 158)
  lemma I2fShape(x: int)
    requires -SIGN <= x < SIGN && x != 0
    ensures var (u, order) := Normalise(Abs(x), 158);
      && 127 <= order <= 158 && SIGN <= u < 0x1_0000_0000 && I2f(x) == Rounded(x < 0, u, order)
      && Abs(x) * Pow2(149) == u * Pow2(order - 9) && Pow2(order - 1) == 256 * Pow2(order - 9)
      && u == Abs(x) * Pow2(158 - order)
  {
    var n := Abs(x);
    NormaliseScale(n, 158, n, 0);
    ScaleByUnit(n, Normalise(n, 158).1);
  }

  // float_i2f rounds every 32-bit integer to the nearest binary32 number, ties to even.
  lemma I2fNearest(x: int)
    requires -SIGN <= x < SIGN
    ensures IsNearest(I2f(x), x * Pow2(149))
  {
    if x == 0 {
      ZeroNearest();
    } else {
      var (u, order) := Normalise(Abs(x), 158);
      I2fShape(x);
      RoundedNearest(x < 0, u, order, Pow2(order - 9));
      NegMul(Abs(x), Pow2(149));
    }
  }

  // In units of 2^-149, n has the 32 bits of n * 2^(158 - order) in front of order - 9 zeros.
  lemma ScaleByUnit(n: int, order: int)
    requires 127 <= order <= 158
    ensures n * Pow2(149) == (n * Pow2(158 - order)) * Pow2(order - 9) && Pow2(order - 1) == 256 * Pow2(order - 9)
  {
    Pow2Add(158 - order, order - 9);
    MulAssoc(n, Pow2(158 - order), Pow2(order - 9));
    Pow2Add(8, order - 9);
    Pow2Values();
  }

  lemma NegMul(a: int, b: int)
    ensures (-a) * b == -(a * b)
  {
  }

  // Its sign is that of x, and with that every bit is determined.
  lemma I2fDetermined(x: int, w: Word)
    requires -SIGN <= x < SIGN
    ensures Negative(I2f(x)) <==> x < 0
    ensures w == I2f(x) <==> IsNearest(w, x * Pow2(149)) && (Negative(w) <==> x < 0)
  {
    I2fNearest(x);
    if x != 0 { I2fSign(x); }
    if IsNearest(w, x * Pow2(149)) && (Negative(w) <==> x < 0) { NearestUnique(w, I2f(x), x * Pow2(149)); }
  }

  // Two's complement: the 32-bit pattern of x
  function Pattern(x: int): (w: Word)
    requires -SIGN <= x < SIGN
  {
    if x < 0 then x + 0x1_0000_0000 else x
  }

  // float_i2f (bits.c:393-434)
  method FloatI2f(x: int) returns (result: Word)
    requires -SIGN <= x < SIGN
    ensures result == I2f(x) && IsNearest(result, x * Pow2(149)) && (Negative(result) <==> x < 0)
  {
    I2fDetermined(x, I2f(x));
    var copy: Word := Pattern(x);
    var sign, order := 0, 158;
    if x == 0 {
      return 0;
    }
    if copy >= SIGN {
      copy := 0x1_0000_0000 - copy; // -copy, which wraps to itself for the smallest integer
      sign := SIGN;
    }
    ghost var n := Abs(x);
    NormaliseScale(n, 158, n, 0);
    while BitAnd(copy, SIGN) == 0
      invariant 1 <= copy && Normalise(copy, order) == Normalise(n, 158)
      decreases 0x1_0000_0000 - copy
    {
      TopBit(copy);
      copy := copy * 2;
      order := order - 1;
    }
    TopBit(copy);
    result := RoundBits(copy, order, sign);
  }

  lemma TopBit(w: Word)
    ensures BitAnd(w, SIGN) == if w >= SIGN then SIGN else 0
  {
    Pow2Values();
    AndField(w, 31, 1, SIGN);
  }

  // The end of float_i2f (bits.c:425-433)
  method RoundBits(copy: Word, order0: int, sign: int) returns (result: Word)
    requires SIGN <= copy && 127 <= order0 <= 158 && (sign == 0 || sign == SIGN)
    ensures result == Rounded(sign == SIGN, copy, order0)
  {
    var order := order0;
    var fraction: Word := copy / 256 + 0xFF00_0000; // copy >> 8 copies the sign bit
    var lastEight := copy % 256;
    LowBit(fraction);
    if lastEight > 0x80 - BitAnd(fraction, 1) {
      fraction := (fraction + 1) % 0x1_0000_0000;
      if fraction == 0 {
        order := order + 1;
      }
    }
    result := Assemble(fraction, order, sign);
  }

  lemma LowBit(w: Word)
    ensures BitAnd(w, 1) == w % 2
  {
    AndLow(w, 1);
  }

  lemma LowField(w: Word)
    ensures BitAnd(w, 0x7F_FFFF) == Fraction(w)
  {
    Pow2Values();
    AndLow(w, 23);
  }

  lemma OrFields(f: int, e: int, sign: int)
    requires 0 <= f < IMPLICIT && 0 <= e < 256 && (sign == 0 || sign == SIGN)
    ensures BitOr(f, e * IMPLICIT) == f + e * IMPLICIT
    ensures BitOr(f + e * IMPLICIT, sign) == f + e * IMPLICIT + sign
  {
    Pow2Values();
    OrDisjoint(f, e, 23, e * IMPLICIT);
    OrDisjoint(f + e * IMPLICIT, if sign == SIGN then 1 else 0, 31, sign);
  }

  // (fraction & 0x7FFFFF) | (order << 23) | sign
  method Assemble(fraction: Word, order: int, sign: int) returns (result: Word)
    requires 0 <= order < 256 && (sign == 0 || sign == SIGN)
    ensures result == Encode(sign == SIGN, order, Fraction(fraction))
  {
    LowField(fraction);
    OrFields(Fraction(fraction), order, sign);
    result := BitOr(BitOr(BitAnd(fraction, 0x7F_FFFF), order * IMPLICIT), sign);
  }

  // ---------- float_f2i ----------

  // Truncation toward zero of the value of w.
  function Truncated(w: Word): int {
    var q := Magnitude(w) / Pow2(149);
    if Negative(w) then -q else q
  }

  // section 5.8 with the program's choice for what does not fit
  function F2i(w: Word): int {
    if Finite(w) && -SIGN <= Truncated(w) < SIGN then Truncated(w) else -SIGN
  }

  lemma ScaleDiv(x: int, p: int, unit: int)
    requires 0 <= x && 0 < p && 0 < unit
    ensures 0 < p * unit && x * unit / (p * unit) == x / p
  {
    var q, r := x / p, x % p;
    assert (p * q + r) * unit == (p * q) * unit + r * unit;
    assert (p * q) * unit == (p * unit) * q;
    MulLe(r + 1, p, unit);
    MulLe(0, r, unit);
    assert (r + 1) * unit == r * unit + unit;
    DivModUnique(x * unit, p * unit, q, r * unit);
  }

  lemma AddDiv(a: int, f: int, p: int)
    requires 0 <= f && 0 < p
    ensures (a * p + f) / p == a + f / p
  {
    var q, r := f / p, f % p;
    assert p * (a + q) == a * p + p * q;
    DivModUnique(a * p + f, p, a + q, r);
  }

  lemma DivLess(f: int, a: int, p: int)
    requires 0 <= f < a * p && 0 < p
    ensures 0 <= f / p < a
  {
    var q, r := f / p, f % p;
    assert f == q * p + r;
    if q < 0 { MulLe(q, -1, p); }
    if q >= a { MulLe(a, q, p); }
  }

  // The fraction of a number 1.f times 2^o, without its bits below one
  function WholeFraction(f: int, o: nat): int {
    if o > 23 then f * Pow2(o - 23) else f / Pow2(23 - o)
  }

  lemma MulDiv(a: int, b: int)
    requires 0 < b
    ensures a * b / b == a
  {
    DivModUnique(a * b, b, a, 0);
  }

  lemma FractionShifted(f: int, p: int)
    requires 0 <= f < IMPLICIT && 0 < p
    ensures 0 <= f * p < IMPLICIT * p && (IMPLICIT + f) * p == IMPLICIT * p + f * p
  {
    MulLe(f + 1, IMPLICIT, p);
    MulLe(0, f, p);
    assert (f + 1) * p == f * p + p;
  }

  lemma SplitScaled(f: int, a: int, p: int, unit: int)
    requires 0 <= f && 0 < p && 0 < unit && 0 < a
    ensures (a * p + f) * unit / (p * unit) == a + f / p
  {
    MulLe(0, a, p);
    ScaleDiv(a * p + f, p, unit);
    AddDiv(a, f, p);
  }

  lemma IntegerPartLow(f: int, o: nat)
    requires 0 <= f < IMPLICIT && o <= 23
    ensures (IMPLICIT + f) * Pow2(126 + o) / Pow2(149) == Pow2(o) + WholeFraction(f, o)
    ensures 0 <= WholeFraction(f, o) < Pow2(o)
  {
    Pow2Split(o);
    SplitScaled(f, Pow2(o), Pow2(23 - o), Pow2(126 + o));
    DivLess(f, Pow2(o), Pow2(23 - o));
  }

  lemma Pow2Split(o: nat)
    requires o <= 23
    ensures Pow2(o) * Pow2(23 - o) == IMPLICIT && Pow2(23 - o) * Pow2(126 + o) == Pow2(149)
  {
    Pow2Values();
    Pow2Add(23 - o, 126 + o);
    Pow2Add(o, 23 - o);
  }

  lemma IntegerPartHigh(f: int, o: nat)
    requires 0 <= f < IMPLICIT && 23 < o
    ensures (IMPLICIT + f) * Pow2(126 + o) / Pow2(149) == Pow2(o) + WholeFraction(f, o)
    ensures 0 <= WholeFraction(f, o) < Pow2(o)
  {
    var p := Pow2(o - 23);
    Pow2Values();
    Pow2Add(o - 23, 149);
    Pow2Add(23, o - 23);
    MulAssoc(IMPLICIT + f, p, Pow2(149));
    MulDiv((IMPLICIT + f) * p, Pow2(149));
    FractionShifted(f, p);
  }

  lemma IntegerPartAt(f: int, o: nat, m: int)
    requires 0 <= f < IMPLICIT && m == (IMPLICIT + f) * Pow2(126 + o)
    ensures m / Pow2(149) == Pow2(o) + WholeFraction(f, o) && 0 <= WholeFraction(f, o) < Pow2(o)
  {
    if o > 23 { IntegerPartHigh(f, o); } else { IntegerPartLow(f, o); }
  }

  // The integer part of a number that is at least one
  lemma IntegerPartOf(w: Word)
    requires 127 <= Exponent(w) < 255
    ensures var o := Exponent(w) - 127;
      && Magnitude(w) / Pow2(149) == Pow2(o) + WholeFraction(Fraction(w), o)
      && 0 <= WholeFraction(Fraction(w), o) < Pow2(o)
  {
    IntegerPartAt(Fraction(w), Exponent(w) - 127, Magnitude(w));
  }

  lemma BelowOne(m: int, d: nat)
    requires 0 <= m < 2 * IMPLICIT && d <= 125
    ensures m * Pow2(d) / Pow2(149) == 0
  {
    Pow2Values();
    Pow2Le(d, 125);
    Pow2Add(24, 125);
    MulLe(0, m, Pow2(d));
    MulMono(m, 0xFF_FFFF, Pow2(d), Pow2(125));
    DivModUnique(m * Pow2(d), Pow2(149), 0, m * Pow2(d));
  }

  lemma TruncatedSmall(w: Word)
    requires Exponent(w) < 127
    ensures Magnitude(w) / Pow2(149) == 0
  {
    BelowOne(Significand(w), if Exponent(w) == 0 then 0 else Exponent(w) - 1);
  }

  lemma ExponentField(w: Word)
    ensures Shr(BitAnd(w, 0x7F80_0000), 23) == Exponent(w)
  {
    Pow2Values();
    AndField(w, 23, 8, 0x7F80_0000);
  }

  lemma SignBit(w: Word)
    ensures Shr(w, 31) != 0 <==> Negative(w)
  {
    Pow2Values();
  }

  lemma F2iFits(w: Word, q: int)
    requires Finite(w) && q == Magnitude(w) / Pow2(149) && 0 <= q < SIGN
    ensures F2i(w) == if Negative(w) then -q else q
  {
  }

  lemma F2iSmall(w: Word)
    requires Exponent(w) < 127
    ensures F2i(w) == 0
  {
    TruncatedSmall(w);
    F2iFits(w, 0);
  }

  lemma F2iHuge(w: Word)
    requires Exponent(w) > 157
    ensures F2i(w) == -SIGN
  {
    if Finite(w) {
      IntegerPartOf(w);
      Pow2Values();
      Pow2Le(31, Exponent(w) - 127);
      assert Magnitude(w) / Pow2(149) >= SIGN;
    }
  }

  lemma QuotientRange(a: int, p: int, bound: int)
    requires 0 <= a && 0 < p
    ensures 0 <= a / p && a / p * p <= a < (a / p + 1) * p && (a / p < bound <==> a < bound * p)
  {
    DivBounds(a, p);
    if a / p >= bound { MulLe(bound, a / p, p); } else { MulLe(a / p + 1, bound, p); }
  }

  // r is m / p without its fraction, with the sign given unless it is 0.
  predicate IsTruncation(r: int, m: int, p: int, negative: bool) {
    Abs(r) * p <= m < (Abs(r) + 1) * p && (r < 0 ==> negative) && (r > 0 ==> !negative)
  }

  lemma SignedTruncation(q: int, m: int, p: int, negative: bool)
    requires 0 <= q && q * p <= m < (q + 1) * p
    ensures IsTruncation(if negative then -q else q, m, p, negative)
  {
  }

  lemma F2iInRange(w: Word, p: int)
    requires Finite(w) && p == Pow2(149) && Magnitude(w) < SIGN * p
    ensures IsTruncation(F2i(w), Magnitude(w), p, Negative(w))
  {
    var q := Magnitude(w) / p;
    MagnitudePositive(w);
    QuotientRange(Magnitude(w), p, SIGN);
    F2iFits(w, q);
    SignedTruncation(q, Magnitude(w), p, Negative(w));
  }

  lemma F2iOutOfRange(w: Word, p: int)
    requires p == Pow2(149) && (Finite(w) ==> Magnitude(w) >= SIGN * p)
    ensures F2i(w) == -SIGN
  {
    MagnitudePositive(w);
    QuotientRange(Magnitude(w), p, SIGN);
  }

  // The result is the value without its fraction if that is an int, whatever the sign, and else 0x80000000.
  lemma F2iTruncates(w: Word)
    ensures if Finite(w) && Magnitude(w) < SIGN * Pow2(149)
      then IsTruncation(F2i(w), Magnitude(w), Pow2(149), Negative(w)) else F2i(w) == -0x8000_0000
  {
    if Finite(w) && Magnitude(w) < SIGN * Pow2(149) { F2iInRange(w, Pow2(149)); } else { F2iOutOfRange(w, Pow2(149)); }
  }

  lemma DivBounds(a: int, b: int)
    requires 0 <= a && 0 < b
    ensures 0 <= a / b && a / b * b <= a < (a / b + 1) * b
  {
    var q := a / b;
    assert a == b * q + a % b;
    if q < 0 { MulLe(q, -1, b); }
  }

  // float_f2i (bits.c:447-483)
  method FloatF2i(uf: Word) returns (r: int)
    ensures r == F2i(uf)
    ensures if Finite(uf) && Magnitude(uf) < SIGN * Pow2(149)
      then IsTruncation(r, Magnitude(uf), Pow2(149), Negative(uf)) else r == -0x8000_0000
  {
    F2iTruncates(uf);
    ExponentField(uf);
    LowField(uf);
    SignBit(uf);
    var order := Shr(BitAnd(uf, 0x7F80_0000), 23) - 127;
    var fraction := BitAnd(uf, 0x7F_FFFF);
    if order > 30 {
      F2iHuge(uf);
      return -SIGN;
    }
    if order < 0 {
      F2iSmall(uf);
      return 0;
    }
    IntegerPartOf(uf);
    r := IntegerPart(order, fraction);
    F2iFits(uf, r);
    if Shr(uf, 31) != 0 {
      r := -r;
    }
  }

  // The shift and the or of float_f2i (bits.c:470-477)
  method IntegerPart(order: int, fraction: int) returns (result: int)
    requires 0 <= order <= 30 && 0 <= fraction < IMPLICIT && 0 <= WholeFraction(fraction, order) < Pow2(order)
    ensures result == Pow2(order) + WholeFraction(fraction, order) && 0 <= result < SIGN
  {
    OneShifted(order);
    if order > 23 {
      result := Shl(fraction, order - 23, 0x1_0000_0000);
    } else {
      result := Shr(fraction, 23 - order);
    }
    assert result == WholeFraction(fraction, order);
    OrDisjoint(result, 1, order, Pow2(order));
    result := BitOr(result, Shl(1, order, 0x1_0000_0000));
  }

  lemma OneShifted(order: int)
    requires 0 <= order <= 30
    ensures Shl(1, order, 0x1_0000_0000) == Pow2(order) && 2 * Pow2(order) <= SIGN
  {
    Pow2Values();
    Pow2Le(order, 30);
    assert Pow2(31) == 2 * Pow2(30);
  }

  // ---------- float_twice ----------

  function Twice(w: Word): Word {
    var e, f := Exponent(w), Fraction(w);
    if e == 255 then w
    else if e == 0 then Encode(Negative(w), if 2 * f < IMPLICIT then 0 else 1, 2 * f % IMPLICIT)
    else Encode(Negative(w), e + 1, if e == 254 then 0 else f)
  }

  // Doubling is exact; above the largest exponent the result is infinity of the same sign.
  lemma TwiceDoubles(w: Word)
    requires Finite(w)
    ensures Negative(Twice(w)) == Negative(w)
    ensures Exponent(w) < 254 ==> Finite(Twice(w)) && Value(Twice(w)) == 2 * Value(w)
    ensures Exponent(w) == 254 ==> Exponent(Twice(w)) == 255 && Fraction(Twice(w)) == 0
    ensures Exponent(w) == 254 ==> forall v: Word | Finite(v) :: Magnitude(v) < 2 * Magnitude(w)
  {
    var e, f := Exponent(w), Fraction(w);
    if e == 254 {
      forall v: Word | Finite(v) ensures Magnitude(v) < 2 * Magnitude(w) { LargestDoubled(v, w); }
    } else if e > 0 {
      DoubleScale(IMPLICIT + f, e - 1);
    }
  }

  lemma DoubleScale(m: int, d: nat)
    ensures m * Pow2(d + 1) == 2 * (m * Pow2(d))
  {
    assert m * (2 * Pow2(d)) == 2 * (m * Pow2(d));
  }

  lemma LargestDoubled(v: Word, w: Word)
    requires Finite(v) && Exponent(w) == 254
    ensures Magnitude(v) < 2 * Magnitude(w)
  {
    var d := if Exponent(v) == 0 then 0 else Exponent(v) - 1;
    Pow2Le(d, 253);
    MulMono(Significand(v), 2 * IMPLICIT - 1, Pow2(d), Pow2(253));
    MulLe(2 * IMPLICIT, 2 * Significand(w), Pow2(253));
    MulAssoc(2, Significand(w), Pow2(253));
  }

  lemma FieldMasks(w: Word)
    ensures BitAnd(w, 0x7F80_0000) == Exponent(w) * IMPLICIT
    ensures BitAnd(w, SIGN) == if Negative(w) then SIGN else 0
  {
    Pow2Values();
    TopBit(w);
    AndField(w, 23, 8, 0x7F80_0000);
  }

  lemma HighField(w: Word)
    ensures BitAnd(w, 0xFF80_0000) == w - Fraction(w)
  {
    Pow2Values();
    Pow2Nine();
    AndField(w, 23, 9, 0xFF80_0000);
    assert w / IMPLICIT % 0x200 == w / IMPLICIT;
  }

  lemma Pow2Nine()
    ensures Pow2(9) == 0x200
  {
    Pow2Values();
  }

  lemma TwiceSubnormal(w: Word)
    requires Exponent(w) == 0
    ensures w * 2 % 0x1_0000_0000 == 2 * Fraction(w)
    ensures Twice(w) == 2 * Fraction(w) + if Negative(w) then SIGN else 0
  {
    EncodeFields(w);
  }

  lemma TwiceNormal(w: Word)
    requires 1 <= Exponent(w) <= 254
    ensures w + 0x80_0000 < 0x1_0000_0000
    ensures Twice(w) == if Exponent(w) == 254 then w + 0x80_0000 - Fraction(w) else w + 0x80_0000
    ensures Exponent(w + 0x80_0000) == Exponent(w) + 1 && Fraction(w + 0x80_0000) == Fraction(w)
  {
    EncodeFields(w);
    assert w + 0x80_0000 == Encode(Negative(w), Exponent(w) + 1, Fraction(w));
  }

  // float_twice (bits.c:359-383)
  method FloatTwice(uf: Word) returns (result: Word)
    ensures result == Twice(uf) && (!Finite(uf) ==> result == uf)
    ensures Finite(uf) && Exponent(uf) < 254 ==> Value(result) == 2 * Value(uf) && Negative(result) == Negative(uf)
  {
    if Finite(uf) { TwiceDoubles(uf); }
    FieldMasks(uf);
    var orderBits := BitAnd(uf, 0x7F80_0000);
    if orderBits == 0x7F80_0000 {
      return uf;
    }
    if orderBits == 0 {
      TwiceSubnormal(uf);
      OrSign(2 * Fraction(uf), Negative(uf));
      result := BitOr(uf * 2 % 0x1_0000_0000, BitAnd(uf, SIGN));
      return;
    }
    TwiceNormal(uf);
    result := StepExponent(uf);
  }

  // The normal case of float_twice (bits.c:378-382); infinity keeps no fraction
  method StepExponent(uf: Word) returns (result: Word)
    requires uf + 0x80_0000 < 0x1_0000_0000
    ensures var w: Word := uf + 0x80_0000; result == if Exponent(w) == 255 then w - Fraction(w) else w
  {
    result := Add32(uf, 0x80_0000);
    AllOnes(result);
    if BitAnd(result, 0x7F80_0000) == 0x7F80_0000 {
      HighField(result);
      result := BitAnd(result, 0xFF80_0000);
    }
  }

  // unsigned addition
  function Add32(x: Word, y: Word): (r: Word)
    ensures x + y < 0x1_0000_0000 ==> r == x + y
  {
    (x + y) % 0x1_0000_0000
  }

  lemma AllOnes(w: Word)
    ensures BitAnd(w, 0x7F80_0000) == 0x7F80_0000 <==> Exponent(w) == 255
  {
    Pow2Values();
    AndField(w, 23, 8, 0x7F80_0000);
  }

  lemma OrSign(x: int, negative: bool)
    requires 0 <= x < SIGN
    ensures BitOr(x, if negative then SIGN else 0) == x + if negative then SIGN else 0
  {
    Pow2Values();
    OrDisjoint(x, if negative then 1 else 0, 31, if negative then SIGN else 0);
  }

  // ---------- the conversions together ----------

  lemma {:induction false} NormaliseOrder(u: int, order: int, d: int)
    requires 1 <= u < 0x1_0000_0000
    ensures Normalise(u, order + d) == (Normalise(u, order).0, Normalise(u, order).1 + d)
    decreases 0x1_0000_0000 - u
  {
    if SIGN <= u {
    } else {
      NormaliseOrder(2 * u, order - 1, d);
    }
  }

  lemma TwiceRounded(negative: bool, u: int, order: int)
    requires SIGN <= u < 0x1_0000_0000 && 1 <= order < 253
    ensures Twice(Rounded(negative, u, order)) == Rounded(negative, u, order + 1)
  {
  }

  lemma NormaliseDouble(n: int)
    requires 1 <= n < SIGN
    ensures Normalise(2 * n, 158) == (Normalise(n, 158).0, Normalise(n, 158).1 + 1)
  {
    NormaliseOrder(2 * n, 157, 1);
  }

  // float_twice(float_i2f(x)) is float_i2f(2 * x) whenever 2 * x is an int.
  lemma TwiceI2f(x: int)
    requires -SIGN <= 2 * x < SIGN
    ensures Twice(I2f(x)) == I2f(2 * x)
  {
    if x != 0 {
      var n := Abs(x);
      var (u, order) := Normalise(n, 158);
      NormaliseScale(n, 158, n, 0);
      NormaliseDouble(n);
      TwiceRounded(x < 0, u, order);
    }
  }

  lemma ScaledOrder(x: int, y: int, unit: int)
    requires x < y && 0 < unit
    ensures x * unit < y * unit
  {
    MulLe(x + 1, y, unit);
    assert (x + 1) * unit == x * unit + unit;
  }

  // float_i2f is monotone in value.
  lemma I2fMonotone(x: int, y: int)
    requires -SIGN <= x <= y < SIGN
    ensures Value(I2f(x)) <= Value(I2f(y))
  {
    if x < y {
      var wx, wy, tx, ty := I2f(x), I2f(y), x * Pow2(149), y * Pow2(149);
      I2fNearest(x);
      I2fNearest(y);
      ScaledOrder(x, y, Pow2(149));
      NearestMonotone(tx, ty, wx, wy);
    }
  }

  // The low eight of the 32 normalised bits of an integer up to 2^24 are zero.
  lemma SmallIsExact(n: int, k: nat, u: int)
    requires 1 <= n <= 0x100_0000 && u == n * Pow2(k) && SIGN <= u
    ensures u % 256 == 0
  {
    Pow2Values();
    if k >= 8 {
      Pow2Add(k - 8, 8);
      MulAssoc(n, Pow2(k - 8), 256);
      MulDiv(n * Pow2(k - 8), 256);
    } else {
      assert Pow2(7) == 128 && Pow2(6) == 64;
      if k <= 6 { Pow2Le(k, 6); MulMono(n, 0x100_0000, Pow2(k), 64); }
    }
  }

  lemma RoundedExact(negative: bool, u: int, order: int, unit: int)
    requires SIGN <= u < 0x1_0000_0000 && 1 <= order < 254 && u % 256 == 0 && Pow2(order - 1) == 256 * unit
    ensures var w := Rounded(negative, u, order); Finite(w) && Value(w) == if negative then -(u * unit) else u * unit
  {
    RoundedMagnitude(negative, u, order);
    MulAssoc(u / 256, 256, unit);
  }

  // n is a number of at most 24 bits followed by zeros.
  ghost predicate ShortEnough(n: int) {
    n == 0 || exists m: int, k: nat :: IsScaled(n, m, k)
  }

  predicate IsScaled(n: int, m: int, k: nat) {
    1 <= m < 0x100_0000 && n == m * Pow2(k)
  }

  // The eight bits of n that float_i2f drops are zero.
  predicate DropsNothing(n: int)
    requires 0 <= n <= SIGN
  {
    n == 0 || Normalise(n, 158).0 % 256 == 0
  }

  lemma SmallDropsNothing(n: int)
    requires 0 <= n <= 0x100_0000
    ensures DropsNothing(n)
  {
    if n != 0 {
      NormaliseScale(n, 158, n, 0);
      SmallIsExact(n, 158 - Normalise(n, 158).1, Normalise(n, 158).0);
    }
  }

  // If the 32 normalised bits of n end in eight zeros, n is short.
  lemma UnshiftLow(n: int, u: int, j: nat)
    requires u == n * Pow2(j) && SIGN <= u < 0x1_0000_0000 && u % 256 == 0 && j <= 8
    ensures IsScaled(n, u / 256, 8 - j)
  {
    var h, k := u / 256, 8 - j;
    assert Pow2(8) == 256;
    Pow2Add(k, j);
    MulAssoc(h, Pow2(k), Pow2(j));
    MulDiv(n, Pow2(j));
    MulDiv(h * Pow2(k), Pow2(j));
  }

  lemma UnshiftHigh(n: int, u: int, j: nat)
    requires u == n * Pow2(j) && SIGN <= u < 0x1_0000_0000 && 8 <= j && 0 <= n
    ensures IsScaled(n, n, 0)
  {
    assert Pow2(8) == 256;
    Pow2Le(8, j);
    MulLe(256, Pow2(j), n);
  }

  lemma ShortIffDropsNothing(n: int)
    requires 0 <= n <= SIGN
    ensures ShortEnough(n) <==> DropsNothing(n)
  {
    if n != 0 {
      var (u, order) := Normalise(n, 158);
      NormaliseScale(n, 158, n, 0);
      if DropsNothing(n) {
        var j := 158 - order;
        if j <= 8 { UnshiftLow(n, u, j); } else { UnshiftHigh(n, u, j); }
      } else if ShortEnough(n) {
        var m: int, k: nat :| IsScaled(n, m, k);
        NormaliseScale(n, 158, m, k);
        SmallIsExact(m, k + (158 - order), u);
        assert false;
      }
    }
  }

  lemma ExactNonzero(x: int) returns (v: int)
    requires -SIGN <= x < SIGN && x != 0 && DropsNothing(Abs(x))
    ensures Finite(I2f(x)) && Value(I2f(x)) == (if x < 0 then -v else v) && v == Abs(x) * Pow2(149)
  {
    var (u, order) := Normalise(Abs(x), 158);
    I2fShape(x);
    RoundedExact(x < 0, u, order, Pow2(order - 9));
    v := u * Pow2(order - 9);
  }

  lemma ExactZero(p: int)
    ensures Finite(I2f(0)) && Value(I2f(0)) == 0 * p
  {
  }

  lemma ShortExact(x: int)
    requires -SIGN <= x < SIGN && DropsNothing(Abs(x))
    ensures Finite(I2f(x)) && Value(I2f(x)) == x * Pow2(149)
  {
    if x == 0 {
      ExactZero(Pow2(149));
    } else {
      var v := ExactNonzero(x);
      SignedScale(x, Pow2(149), v);
    }
  }

  // Dropped bits that are not all zero change the number, to one that is still an integer.
  lemma RoundedInteger(negative: bool, u: int, order: int, unit: int) returns (q: int)
    requires SIGN <= u < 0x1_0000_0000 && u % 256 != 0 && 150 < order < 254 && Pow2(order - 1) == 256 * unit && 0 < unit
    ensures var w := Rounded(negative, u, order);
      Finite(w) && Magnitude(w) == q * Pow2(149) && Magnitude(w) != u * unit
  {
    RoundedMagnitude(negative, u, order);
    var s := if RoundsUp(u) then u / 256 + 1 else u / 256;
    Distances(u / 256, u % 256, unit);
    LongDistance(u % 256, unit);
    q := s * Pow2(order - 150);
    Pow2Add(order - 150, 149);
    MulAssoc(s, Pow2(order - 150), Pow2(149));
  }

  // An integer that loses bits is rounded to another integer.
  lemma LongRounded(x: int) returns (q: int)
    requires -SIGN <= x < SIGN && !DropsNothing(Abs(x))
    ensures Finite(I2f(x)) && Magnitude(I2f(x)) == q * Pow2(149) && q != Abs(x)
  {
    var (u, order) := Normalise(Abs(x), 158);
    I2fShape(x);
    LongOrder(Abs(x), u, order);
    q := RoundedInteger(x < 0, u, order, Pow2(order - 9));
  }

  lemma LongDistance(rem: int, unit: int)
    requires 0 < rem < 256 && 0 < unit
    ensures 0 < rem * unit && 0 < (256 - rem) * unit
  {
    MulLe(1, rem, unit);
    MulLe(1, 256 - rem, unit);
  }

  lemma LongOrder(n: int, u: int, order: int)
    requires order <= 158 && u == n * Pow2(158 - order) && u % 256 != 0 && 0 <= n
    ensures 150 < order
  {
    if order <= 150 {
      Pow2Values();
      Pow2Add(150 - order, 8);
      MulAssoc(n, Pow2(150 - order), 256);
      DivModUnique(u, 256, n * Pow2(150 - order), 0);
    }
  }

  // Up to 2^24 in magnitude, float_i2f is exact.
  lemma I2fExact(x: int)
    requires -0x100_0000 <= x <= 0x100_0000
    ensures Finite(I2f(x)) && Value(I2f(x)) == x * Pow2(149)
  {
    SmallDropsNothing(Abs(x));
    ShortExact(x);
  }

  lemma SignedScale(x: int, p: int, v: int)
    requires v == Abs(x) * p
    ensures x * p == if x < 0 then -v else v
  {
    NegMul(Abs(x), p);
  }

  lemma I2fSign(x: int)
    requires -SIGN <= x < SIGN && x != 0
    ensures Negative(I2f(x)) == (x < 0)
  {
    I2fShape(x);
    RoundedMagnitude(x < 0, Normalise(Abs(x), 158).0, Normalise(Abs(x), 158).1);
  }

  lemma ShortMagnitude(x: int)
    requires -SIGN <= x < SIGN && DropsNothing(Abs(x))
    ensures Finite(I2f(x)) && Magnitude(I2f(x)) == Abs(x) * Pow2(149)
  {
    if x == 0 {
      ExactZero(Pow2(149));
    } else {
      var v := ExactNonzero(x);
      I2fSign(x);
    }
  }

  lemma ShortRoundTrip(x: int)
    requires -SIGN <= x < SIGN && DropsNothing(Abs(x))
    ensures F2i(I2f(x)) == x
  {
    if x != 0 { I2fSign(x); }
    ShortMagnitude(x);
    MulDiv(Abs(x), Pow2(149));
  }

  lemma LongRoundTrip(x: int)
    requires -SIGN <= x < SIGN && !DropsNothing(Abs(x))
    ensures F2i(I2f(x)) != x
  {
    I2fSign(x);
    var q := LongRounded(x);
    MulDiv(q, Pow2(149));
  }

  // float_f2i undoes float_i2f exactly for the integers of at most 24 bits followed by zeros.
  lemma RoundTrip(x: int)
    requires -SIGN <= x < SIGN
    ensures F2i(I2f(x)) == x <==> ShortEnough(Abs(x))
  {
    ShortIffDropsNothing(Abs(x));
    if DropsNothing(Abs(x)) { ShortRoundTrip(x); } else { LongRoundTrip(x); }
  }

  // Among them are all up to 2^24 in magnitude.
  lemma RoundTripSmall(x: int)
    requires -0x100_0000 <= x <= 0x100_0000
    ensures F2i(I2f(x)) == x
  {
    SmallDropsNothing(Abs(x));
    ShortRoundTrip(x);
  }
}
