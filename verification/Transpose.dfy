// The cache-blocked transposes of cache lab/cachelab-handout/trans.c.
// A has N rows of M cells, B has M rows of N cells.
module Transpose {

  ghost predicate Shapes(m: int, n: int, a: array2<int>, b: array2<int>) {
    a != b && a.Length0 == n && a.Length1 == m && b.Length0 == m && b.Length1 == n
  }

  ghost predicate IsTransposed(a: array2<int>, b: array2<int>)
    requires a.Length0 == b.Length1 && a.Length1 == b.Length0
    reads a, b
  {
    forall r, c | 0 <= r < b.Length0 && 0 <= c < b.Length1 :: b[r, c] == a[c, r]
  }

  // The first rows of B are those of the transpose.
  ghost predicate TopTransposed(a: array2<int>, b: array2<int>, rows: int)
    requires a.Length0 == b.Length1 && a.Length1 == b.Length0
    reads a, b
  {
    forall r, c | 0 <= r < rows && r < b.Length0 && 0 <= c < b.Length1 :: b[r, c] == a[c, r]
  }

  // is_transpose (trans.c:194-206)
  method IsTranspose(m: int, n: int, a: array2<int>, b: array2<int>) returns (ok: bool)
    requires Shapes(m, n, a, b)
    ensures ok <==> IsTransposed(a, b)
  {
    for i := 0 to n
      invariant forall r, c | 0 <= r < m && 0 <= c < i :: b[r, c] == a[c, r]
    {
      for j := 0 to m
        invariant forall r | 0 <= r < j :: b[r, i] == a[i, r]
      {
        if a[i, j] != b[j, i] {
          return false;
        }
      }
    }
    return true;
  }

  // trans (trans.c:155-170)
  method Trans(m: int, n: int, a: array2<int>, b: array2<int>)
    requires Shapes(m, n, a, b)
    modifies b
    ensures IsTransposed(a, b)
  {
    for i := 0 to n
      invariant forall r, c | 0 <= r < m && 0 <= c < i :: b[r, c] == a[c, r]
    {
      for j := 0 to m
        invariant forall r, c | 0 <= r < m && 0 <= c < i :: b[r, c] == a[c, r]
        invariant forall r | 0 <= r < j :: b[r, i] == a[i, r]
      {
        var tmp := a[i, j];
        b[j, i] := tmp;
      }
    }
  }

  // ---------- 32 x 32: strips of eight rows (trans.c:36-58) ----------

  method StripCells(m: int, a: array2<int>, b: array2<int>, i: int, j: int)
    requires Shapes(m, 32, a, b) && 32 <= m && 0 <= i <= 24 && 0 <= j < 32
    modifies b
    ensures forall c | i <= c < i + 8 :: b[j, c] == a[c, j]
    ensures forall r, c | 0 <= r < m && 0 <= c < 32 && !(r == j && i <= c < i + 8) :: b[r, c] == old(b[r, c])
  {
    var var0, var1, var2, var3 := a[i, j], a[i + 1, j], a[i + 2, j], a[i + 3, j];
    var var4, var5, var6, var7 := a[i + 4, j], a[i + 5, j], a[i + 6, j], a[i + 7, j];
    b[j, i] := var0;
    b[j, i + 1] := var1;
    b[j, i + 2] := var2;
    b[j, i + 3] := var3;
    b[j, i + 4] := var4;
    b[j, i + 5] := var5;
    b[j, i + 6] := var6;
    b[j, i + 7] := var7;
  }

  method Transpose32(m: int, a: array2<int>, b: array2<int>)
    requires Shapes(m, 32, a, b) && 32 <= m
    modifies b
    ensures TopTransposed(a, b, 32)
    ensures forall r, c | 32 <= r < m && 0 <= c < 32 :: b[r, c] == old(b[r, c])
  {
    var i := 0;
    while i < 32
      invariant 0 <= i <= 32 && i % 8 == 0
      invariant forall r, c | 32 <= r < m && 0 <= c < 32 :: b[r, c] == old(b[r, c])
      invariant forall r, c | 0 <= r < 32 && 0 <= c < i :: b[r, c] == a[c, r]
    {
      for j := 0 to 32
        invariant forall r, c | 32 <= r < m && 0 <= c < 32 :: b[r, c] == old(b[r, c])
        invariant forall r, c | 0 <= r < 32 && 0 <= c < i :: b[r, c] == a[c, r]
        invariant forall r, c | 0 <= r < j && i <= c < i + 8 :: b[r, c] == a[c, r]
      {
        StripCells(m, a, b, i, j);
      }
      i := i + 8;
    }
  }

  // ---------- 67 x 61: clamped 17 x 17 tiles (trans.c:129-140) ----------

  method Tile(m: int, a: array2<int>, b: array2<int>, i: int, j: int)
    requires Shapes(m, 67, a, b) && 61 <= m && 0 <= i < 61 && 0 <= j < 67
    modifies b
    ensures forall r, c | i <= r < i + 17 && r < 61 && j <= c < j + 17 && c < 67 :: b[r, c] == a[c, r]
    ensures forall r, c | 0 <= r < m && 0 <= c < 67 && !(i <= r < i + 17 && r < 61 && j <= c < j + 17) ::
              b[r, c] == old(b[r, c])
  {
    var k := j;
    while k < j + 17 && k < 67
      invariant j <= k <= j + 17 && k <= 67
      invariant forall r, c | i <= r < i + 17 && r < 61 && j <= c < k :: b[r, c] == a[c, r]
      invariant forall r, c | 0 <= r < m && 0 <= c < 67 && !(i <= r < i + 17 && r < 61 && j <= c < j + 17) ::
                b[r, c] == old(b[r, c])
    {
      var l := i;
      while l < i + 17 && l < 61
        invariant i <= l <= i + 17 && l <= 61
        invariant forall r, c | i <= r < i + 17 && r < 61 && j <= c < k :: b[r, c] == a[c, r]
        invariant forall r | i <= r < l :: b[r, k] == a[k, r]
        invariant forall r, c | 0 <= r < m && 0 <= c < 67 && !(i <= r < i + 17 && r < 61 && j <= c < j + 17) ::
                  b[r, c] == old(b[r, c])
      {
        var var0 := a[k, l];
        b[l, k] := var0;
        l := l + 1;
      }
      k := k + 1;
    }
  }

  method Transpose67(m: int, a: array2<int>, b: array2<int>)
    requires Shapes(m, 67, a, b) && 61 <= m
    modifies b
    ensures TopTransposed(a, b, 61)
    ensures forall r, c | 61 <= r < m && 0 <= c < 67 :: b[r, c] == old(b[r, c])
  {
    var i := 0;
    while i < 61
      invariant 0 <= i
      invariant forall r, c | 61 <= r < m && 0 <= c < 67 :: b[r, c] == old(b[r, c])
      invariant forall r, c | 0 <= r < i && r < 61 && 0 <= c < 67 :: b[r, c] == a[c, r]
    {
      var j := 0;
      while j < 67
        invariant 0 <= j
        invariant forall r, c | 61 <= r < m && 0 <= c < 67 :: b[r, c] == old(b[r, c])
        invariant forall r, c | 0 <= r < i && r < 61 && 0 <= c < 67 :: b[r, c] == a[c, r]
        invariant forall r, c | i <= r < i + 17 && r < 61 && 0 <= c < j && c < 67 :: b[r, c] == a[c, r]
      {
        Tile(m, a, b, i, j);
        j := j + 17;
      }
      i := i + 17;
    }
  }

  // ---------- 64 x 64: 8 x 8 blocks in quadrants (trans.c:61-126) ----------

  // Row k of A's upper quadrants: the left half goes home, the right half is parked four columns to the right.
  method ParkRow(m: int, a: array2<int>, b: array2<int>, i: int, j: int, k: int)
    requires Shapes(m, 64, a, b) && 64 <= m && 0 <= i <= 56 && 0 <= j <= 56 && i <= k < i + 4
    modifies b
    ensures forall r, c | j <= r < j + 4 && c == k :: b[r, c] == a[c, r]
    ensures forall r, c | j <= r < j + 4 && c == k + 4 :: b[r, c] == a[k, r + 4]
    ensures forall r, c | 0 <= r < m && 0 <= c < 64 && !(j <= r < j + 4 && (c == k || c == k + 4)) ::
              b[r, c] == old(b[r, c])
  {
    var var0, var1, var2, var3 := a[k, j], a[k, j + 1], a[k, j + 2], a[k, j + 3];
    var var4, var5, var6, var7 := a[k, j + 4], a[k, j + 5], a[k, j + 6], a[k, j + 7];
    b[j, k] := var0;
    b[j + 1, k] := var1;
    b[j + 2, k] := var2;
    b[j + 3, k] := var3;
    b[j, k + 4] := var4;
    b[j + 1, k + 4] := var5;
    b[j + 2, k + 4] := var6;
    b[j + 3, k + 4] := var7;
  }

  // Row k of B: the parked cells are read, replaced by their proper values, and moved four rows down.
  method UnparkRow(m: int, a: array2<int>, b: array2<int>, i: int, j: int, k: int)
    requires Shapes(m, 64, a, b) && 64 <= m && 0 <= i <= 56 && 0 <= j <= 56 && j <= k < j + 4
    modifies b
    ensures forall c | i + 4 <= c < i + 8 :: b[k, c] == a[c, k]
    ensures forall r, c | r == k + 4 && i <= c < i + 4 :: b[r, c] == old(b[k, c + 4])
    ensures forall r, c | 0 <= r < m && 0 <= c < 64 ::
              (r == k && i + 4 <= c < i + 8) || (r == k + 4 && i <= c < i + 4) || b[r, c] == old(b[r, c])
  {
    var var0, var1, var2, var3 := a[i + 4, k], a[i + 5, k], a[i + 6, k], a[i + 7, k];
    var var4, var5, var6, var7 := b[k, i + 4], b[k, i + 5], b[k, i + 6], b[k, i + 7];
    b[k, i + 4] := var0;
    b[k, i + 5] := var1;
    b[k, i + 6] := var2;
    b[k, i + 7] := var3;
    b[k + 4, i] := var4;
    b[k + 4, i + 1] := var5;
    b[k + 4, i + 2] := var6;
    b[k + 4, i + 3] := var7;
  }

  method LastRow(m: int, a: array2<int>, b: array2<int>, i: int, k: int)
    requires Shapes(m, 64, a, b) && 64 <= m && 0 <= i <= 56 && 0 <= k < 64
    modifies b
    ensures forall c | i + 4 <= c < i + 8 :: b[k, c] == a[c, k]
    ensures forall r, c | 0 <= r < m && 0 <= c < 64 && !(r == k && i + 4 <= c < i + 8) :: b[r, c] == old(b[r, c])
  {
    var var0, var1, var2, var3 := a[i + 4, k], a[i + 5, k], a[i + 6, k], a[i + 7, k];
    b[k, i + 4] := var0;
    b[k, i + 5] := var1;
    b[k, i + 6] := var2;
    b[k, i + 7] := var3;
  }

  method Block64(m: int, a: array2<int>, b: array2<int>, i: int, j: int)
    requires Shapes(m, 64, a, b) && 64 <= m && 0 <= i <= 56 && 0 <= j <= 56
    modifies b
    ensures forall r, c | j <= r < j + 8 && i <= c < i + 8 :: b[r, c] == a[c, r]
    ensures forall r, c | 0 <= r < m && 0 <= c < 64 && !(j <= r < j + 8 && i <= c < i + 8) :: b[r, c] == old(b[r, c])
  {
    for k := i to i + 4
      invariant forall r, c | 0 <= r < m && 0 <= c < 64 && !(j <= r < j + 8 && i <= c < i + 8) ::
                b[r, c] == old(b[r, c])
      invariant forall r, c | j <= r < j + 4 && i <= c < k :: b[r, c] == a[c, r]
      invariant forall r, c | j <= r < j + 4 && i + 4 <= c < k + 4 :: b[r, c] == a[c - 4, r + 4]
    {
      ParkRow(m, a, b, i, j, k);
    }
    for k := j to j + 4
      invariant forall r, c | 0 <= r < m && 0 <= c < 64 && !(j <= r < j + 8 && i <= c < i + 8) ::
                b[r, c] == old(b[r, c])
      invariant forall r, c | j <= r < j + 4 && i <= c < i + 4 :: b[r, c] == a[c, r]
      invariant forall r, c | j <= r < k && i + 4 <= c < i + 8 :: b[r, c] == a[c, r]
      invariant forall r, c | j + 4 <= r < k + 4 && i <= c < i + 4 :: b[r, c] == a[c, r]
      invariant forall r, c | k <= r < j + 4 && i + 4 <= c < i + 8 :: b[r, c] == a[c - 4, r + 4]
    {
      UnparkRow(m, a, b, i, j, k);
    }
    for k := j + 4 to j + 8
      invariant forall r, c | 0 <= r < m && 0 <= c < 64 && !(j <= r < j + 8 && i <= c < i + 8) ::
                b[r, c] == old(b[r, c])
      invariant forall r, c | j <= r < j + 8 && i <= c < i + 8 && (r < j + 4 || c < i + 4) :: b[r, c] == a[c, r]
      invariant forall r, c | j + 4 <= r < k && i + 4 <= c < i + 8 :: b[r, c] == a[c, r]
    {
      LastRow(m, a, b, i, k);
    }
  }

  method Transpose64(m: int, a: array2<int>, b: array2<int>)
    requires Shapes(m, 64, a, b) && 64 <= m
    modifies b
    ensures TopTransposed(a, b, 64)
    ensures forall r, c | 64 <= r < m && 0 <= c < 64 :: b[r, c] == old(b[r, c])
  {
    var i := 0;
    while i < 64
      invariant 0 <= i <= 64 && i % 8 == 0
      invariant forall r, c | 64 <= r < m && 0 <= c < 64 :: b[r, c] == old(b[r, c])
      invariant forall r, c | 0 <= r < 64 && 0 <= c < i :: b[r, c] == a[c, r]
    {
      var j := 0;
      while j < 64
        invariant 0 <= j <= 64 && j % 8 == 0
        invariant forall r, c | 64 <= r < m && 0 <= c < 64 :: b[r, c] == old(b[r, c])
        invariant forall r, c | 0 <= r < 64 && 0 <= c < i :: b[r, c] == a[c, r]
        invariant forall r, c | 0 <= r < j && i <= c < i + 8 :: b[r, c] == a[c, r]
      {
        Block64(m, a, b, i, j);
        j := j + 8;
      }
      i := i + 8;
    }
  }

  // How many rows of B transpose_submit writes: it looks only at N and assumes the M that goes with it.
  function Rows(n: int): int {
    if n == 32 then 32 else if n == 64 then 64 else if n == 67 then 61 else 0
  }

  // transpose_submit (trans.c:29-143). The rows that it assumes are transposed and further rows, or all rows
  // for another N, left alone; so B is the transpose exactly if these held it already.
  method TransposeSubmit(m: int, n: int, a: array2<int>, b: array2<int>)
    requires Shapes(m, n, a, b) && Rows(n) <= m
    modifies b
    ensures TopTransposed(a, b, Rows(n))
    ensures forall r, c | Rows(n) <= r < m && 0 <= c < n :: b[r, c] == old(b[r, c])
    ensures IsTransposed(a, b) <==> forall r, c | Rows(n) <= r < m && 0 <= c < n :: old(b[r, c]) == a[c, r]
  {
    if n == 32 {
      Transpose32(m, a, b);
    } else if n == 64 {
      Transpose64(m, a, b);
    } else if n == 67 {
      Transpose67(m, a, b);
    }
  }
}
