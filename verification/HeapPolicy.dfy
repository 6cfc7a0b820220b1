// What the allocator promises its callers, on the abstract state of HeapModel:
// bucket arithmetic, the choice of a block, malloc as one step, what happens to
// the live blocks, and the counts that the checker compares.
module HeapPolicy {
  import opened Basics
  import opened HeapModel

  lemma HalfStep(size: int, rest: int, p: int)
    requires 0 < rest && 1 <= p && rest * p * 16 <= size < (rest + 1) * p * 16
    ensures rest / 2 * (2 * p) * 16 <= size < (rest / 2 + 1) * (2 * p) * 16
    ensures p * 16 <= size
  {
    var h := rest / 2;
    assert h * (2 * p) == 2 * h * p && (h + 1) * (2 * p) == (2 * h + 2) * p;
    MulLe(2 * h, rest, p);
    MulLe(rest + 1, 2 * h + 2, p);
    MulLe(1, rest, p);
  }

  // The bit length of size / 16, capped at 9, is the documented bucket.
  lemma LogBucket(size: int, idx: nat)
    requires 0 <= size < Pow2(idx) * 16 && (0 < idx ==> Pow2(idx - 1) * 16 <= size)
    ensures Bucket(size) == if idx > LIST_NUM - 1 then LIST_NUM - 1 else idx
  {
    assert Pow2(3) == 8 && Pow2(6) == 64 && Pow2(8) == 256;
    if idx > 9 { Pow2Le(8, idx - 1); }
  }

  // A larger block is in the same bucket or a later one, so a search may skip the earlier ones.
  lemma BucketMonotone(a: int, b: int)
    requires a <= b
    ensures Bucket(a) <= Bucket(b)
  {
  }

  // ---------- allocation policy ----------

  ghost predicate Fits(s: State, n: int, b: int) {
    IsFree(s.blocks, b) && n <= s.blocks[b].size
  }

  // b comes before c when the buckets are walked in order.
  ghost predicate Before(s: State, b: int, c: int)
    requires |s.lists| == LIST_NUM && b in s.blocks && c in s.blocks
  {
    var j, k := Bucket(s.blocks[b].size), Bucket(s.blocks[c].size);
    j < k || (j == k && exists i, i' :: 0 <= i < i' < |s.lists[k]| && s.lists[k][i] == b && s.lists[k][i'] == c)
  }

  // Below 128 bytes the first fit wins; from there on the smallest, and among equals the first.
  ghost predicate Better(s: State, n: int, b: int, c: int)
    requires |s.lists| == LIST_NUM && b in s.blocks && c in s.blocks
  {
    if n < 128 then Before(s, b, c)
    else s.blocks[b].size < s.blocks[c].size || (s.blocks[b].size == s.blocks[c].size && Before(s, b, c))
  }

  ghost predicate Chosen(s: State, n: int, b: int)
    requires |s.lists| == LIST_NUM
  {
    Fits(s, n, b) && forall c | Fits(s, n, c) && c != b :: Better(s, n, b, c)
  }

  // A free block of at least n bytes: below 128 the first of all of them, from there on a smallest of all.
  ghost predicate FoundFor(s: State, n: int, b: int)
    requires |s.lists| == LIST_NUM
  {
    && b in s.blocks && !s.blocks[b].alloc && n <= s.blocks[b].size
    && forall c | c in s.blocks && !s.blocks[c].alloc && n <= s.blocks[c].size && c != b ::
         if n < 128 then Before(s, b, c) else s.blocks[b].size <= s.blocks[c].size
  }

  lemma ChosenIsFound(s: State, n: int, b: int)
    requires |s.lists| == LIST_NUM && Chosen(s, n, b)
    ensures FoundFor(s, n, b)
  {
    forall c | c in s.blocks && !s.blocks[c].alloc && n <= s.blocks[c].size && c != b ensures Better(s, n, b, c) {
      assert Fits(s, n, c);
    }
  }

  lemma NoneFits(s: State, n: int)
    ensures (forall b :: !Fits(s, n, b)) ==> forall c | c in s.blocks && !s.blocks[c].alloc :: s.blocks[c].size < n
  {
    forall c | c in s.blocks && !s.blocks[c].alloc ensures Fits(s, n, c) || s.blocks[c].size < n {}
  }

  // adjustsize (mm.c:451-456), with the wrap-around of size_t
  function AdjustSize(size: int): int
    requires 0 < size < 0x1_0000_0000_0000_0000
  {
    if size <= 8 then 16 else 8 * ((size + 15) % 0x1_0000_0000_0000_0000 / 8)
  }

  const MAX_REQUEST := 0x1_0000_0000_0000_0000 - 16

  // The rounding wraps, and the block would be too small, exactly above MAX_REQUEST.
  lemma AdjustExact(size: int)
    requires 0 < size < 0x1_0000_0000_0000_0000
    ensures size + 8 <= AdjustSize(size) <==> size <= MAX_REQUEST
    ensures size <= MAX_REQUEST ==> AdjustSize(size) % 8 == 0 && 16 <= AdjustSize(size) < size + 16
  {
  }

  function ExtendSize(n: int): int {
    if n > CHUNKSIZE then n else CHUNKSIZE
  }

  // A block of n bytes is taken from a fitting block, or from the extended heap, or not at all.
  ghost predicate Obtained(s: State, n: int, r: Option<int>, s': State)
    requires Good(s) && s.loose == {} && 16 <= n && n % 8 == 0
  {
    if r.None? then s' == s && forall b :: !Fits(s, n, b)
    else if exists b :: Fits(s, n, b) then Chosen(s, n, r.value) && s' == Place(s, r.value, n)
    else
      var m := ExtendSize(n);
      ExtendBlock(s, m);
      r.value == RunStart(Append(s, m).blocks, s.top) && s' == Place(Extend(s, m), r.value, n)
  }

  // malloc (mm.c:440-472) as a step
  ghost predicate Malloced(s: State, size: int, r: Option<int>, s': State)
    requires Good(s) && s.loose == {} && 0 <= size <= MAX_REQUEST
  {
    if size == 0 then r == None && s' == s else AdjustExact(size); Obtained(s, AdjustSize(size), r, s')
  }

  // s1 is the state after malloc, s the state after p has been freed.
  ghost predicate IsMove(s0: State, s1: State, s: State, p: int) {
    Good(s1) && s1.loose == {} && p in s0.blocks && p in s1.blocks && s1.blocks[p] == s0.blocks[p] && s1.blocks[p].alloc
    && s == HeapModel.Free(s1, p)
  }

  // The extended heap ends in a listed free block that includes the new bytes.
  lemma ExtendBlock(s: State, n: int)
    requires Good(s) && s.loose == {} && 16 <= n && n % 8 == 0
    ensures var e := Extend(s, n); var lo := RunStart(Append(s, n).blocks, s.top);
      && Good(e) && e.loose == {} && e.top == s.top + n && Fits(e, n, lo) && lo + e.blocks[lo].size == s.top + n
  {
    var a := Append(s, n);
    AppendGood(s, n);
    assert a.loose == {s.top};
    CoalesceGood(a, s.top);
    RunEdges(a, s.top);
    assert End(a.blocks, s.top) == s.top + n;
    assert !(s.top + n in a.blocks);
  }

  // ---------- the searches of find_fit ----------

  // The free blocks met before position i of bucket k by a walk that started at bucket lo.
  ghost predicate Scanned(s: State, lo: int, k: int, i: int, b: int)
    requires |s.lists| == LIST_NUM
  {
    IsFree(s.blocks, b) &&
    var j := Bucket(s.blocks[b].size);
    lo <= j < k || (j == k < LIST_NUM && exists h :: 0 <= h < i && h < |s.lists[k]| && s.lists[k][h] == b)
  }

  ghost predicate BestSoFar(s: State, n: int, lo: int, k: int, i: int, best: Option<int>)
    requires |s.lists| == LIST_NUM
  {
    && (best.Some? ==> Fits(s, n, best.value) && Scanned(s, lo, k, i, best.value))
    && forall c {:trigger Scanned(s, lo, k, i, c)} | Fits(s, n, c) && Scanned(s, lo, k, i, c) ::
         best.Some? && (c == best.value || Better(s, n, best.value, c))
  }

  lemma ScannedNext(s: State, lo: int, k: int, i: int, b: int)
    requires Good(s) && lo <= k < LIST_NUM && 0 <= lo && 0 <= i < |s.lists[k]|
    ensures Scanned(s, lo, k, i + 1, b) <==> Scanned(s, lo, k, i, b) || b == s.lists[k][i]
  {
    assert s.lists[k][i] in s.lists[k];
  }

  lemma ScannedBucket(s: State, lo: int, k: int, b: int)
    requires Good(s) && s.loose == {} && 0 <= lo <= k < LIST_NUM
    ensures Scanned(s, lo, k + 1, 0, b) <==> Scanned(s, lo, k, |s.lists[k]|, b)
  {
    if IsFree(s.blocks, b) && Bucket(s.blocks[b].size) == k { assert b in s.lists[k]; }
  }

  // A scanned block comes before the one at position i, which is not yet scanned.
  lemma ScannedBefore(s: State, lo: int, k: int, i: int, b: int)
    requires Good(s) && 0 <= lo <= k < LIST_NUM && 0 <= i < |s.lists[k]| && Scanned(s, lo, k, i, b)
    ensures s.lists[k][i] in s.blocks && Before(s, b, s.lists[k][i]) && !Scanned(s, lo, k, i, s.lists[k][i])
  {
    var c := s.lists[k][i];
    assert c in s.lists[k] && Distinct(s.lists[k]);
  }

  lemma BestStep(s: State, n: int, lo: int, k: int, i: int, best: Option<int>, best': Option<int>)
    requires Good(s) && 0 <= lo <= k < LIST_NUM && 0 <= i < |s.lists[k]| && 128 <= n
    requires BestSoFar(s, n, lo, k, i, best)
    requires var c := s.lists[k][i];
      && c in s.blocks
      && best' ==
         if Fits(s, n, c) && (best.None? || s.blocks[c].size < s.blocks[best.value].size) then Some(c) else best
    ensures BestSoFar(s, n, lo, k, i + 1, best')
  {
    var c := s.lists[k][i];
    forall b | Fits(s, n, b) && Scanned(s, lo, k, i + 1, b)
      ensures best'.Some? && (b == best'.value || Better(s, n, best'.value, b))
    {
      ScannedNext(s, lo, k, i, b);
      if best.Some? { ScannedBefore(s, lo, k, i, best.value); }
    }
    if best'.Some? { ScannedNext(s, lo, k, i, best'.value); }
  }

  lemma NoneStep(s: State, n: int, lo: int, k: int, i: int)
    requires Good(s) && 0 <= lo <= k < LIST_NUM && 0 <= i < |s.lists[k]|
    requires BestSoFar(s, n, lo, k, i, None) && !Fits(s, n, s.lists[k][i])
    ensures BestSoFar(s, n, lo, k, i + 1, None)
  {
    forall b | Fits(s, n, b) && Scanned(s, lo, k, i + 1, b) ensures false { ScannedNext(s, lo, k, i, b); }
  }

  lemma BestBucket(s: State, n: int, lo: int, k: int, best: Option<int>)
    requires Good(s) && s.loose == {} && 0 <= lo <= k < LIST_NUM
    requires BestSoFar(s, n, lo, k, |s.lists[k]|, best)
    ensures BestSoFar(s, n, lo, k + 1, 0, best)
  {
    if best.Some? { ScannedBucket(s, lo, k, best.value); }
    forall c | Fits(s, n, c) && Scanned(s, lo, k + 1, 0, c)
      ensures best.Some? && (c == best.value || Better(s, n, best.value, c))
    {
      ScannedBucket(s, lo, k, c);
    }
  }

  // Everything that fits is in the buckets walked.
  lemma BestEnd(s: State, n: int, best: Option<int>)
    requires Good(s) && s.loose == {} && BestSoFar(s, n, Bucket(n), LIST_NUM, 0, best)
    ensures best.None? ==> forall b :: !Fits(s, n, b)
    ensures best.Some? ==> Chosen(s, n, best.value)
  {
    forall b | Fits(s, n, b) ensures Scanned(s, Bucket(n), LIST_NUM, 0, b) { BucketMonotone(n, s.blocks[b].size); }
  }

  // The first fit in walking order is the choice for small requests.
  lemma FirstFound(s: State, n: int, k: int, i: int)
    requires Good(s) && s.loose == {} && Bucket(n) <= k < LIST_NUM && 0 <= Bucket(n) && 0 <= i < |s.lists[k]| && n < 128
    requires BestSoFar(s, n, Bucket(n), k, i, None) && Fits(s, n, s.lists[k][i])
    ensures Chosen(s, n, s.lists[k][i])
  {
    var c := s.lists[k][i];
    assert c in s.lists[k];
    forall b | Fits(s, n, b) && b != c ensures Before(s, c, b) {
      BucketMonotone(n, s.blocks[b].size);
      assert !Scanned(s, Bucket(n), k, i, b);
      if Bucket(s.blocks[b].size) == k { assert b in s.lists[k]; }
    }
  }

  // ---------- live blocks ----------

  ghost function Live(bs: Blocks): Blocks {
    map b | b in bs && bs[b].alloc :: bs[b]
  }

  // The live blocks after one more has become live
  lemma LiveGrows(bs: Blocks, bs': Blocks, b: int)
    requires b in bs' && bs'[b].alloc
    requires forall c | c in bs && bs[c].alloc :: c != b && c in bs' && bs'[c] == bs[c]
    requires forall c | c in bs' && bs'[c].alloc && c != b :: c in bs && bs'[c] == bs[c]
    ensures Live(bs') == Live(bs)[b := bs'[b]]
  {
    assert forall c | c in Live(bs') && c != b :: c in Live(bs) && Live(bs')[c] == Live(bs)[c];
    assert forall c | c in Live(bs) :: c in Live(bs') && c != b;
    assert Live(bs').Keys == Live(bs).Keys + {b};
  }

  // place makes exactly one block live; at most 8 spare bytes stay with it.
  lemma PlaceLive(s: State, b: int, n: int)
    requires Good(s) && s.loose == {} && IsFree(s.blocks, b)
    requires 16 <= n <= s.blocks[b].size && n % 8 == 0
    ensures var s' := Place(s, b, n);
      && b in s'.blocks && n <= s'.blocks[b].size < n + 16
      && Live(s'.blocks) == Live(s.blocks)[b := s'.blocks[b]] && s'.top == s.top
  {
    var bs, bs' := s.blocks, Place(s, b, n).blocks;
    if bs[b].size - n >= 16 {
      SplitApart(bs, s.top, b, n);
      assert bs' == Split(bs, b, n);
    } else {
      assert bs' == Mark(bs, b, true);
    }
    LiveGrows(bs, bs', b);
  }

  lemma CoalesceLive(s: State, b: int)
    requires Good(s) && s.loose == {b}
    ensures Live(Coalesce(s, b).blocks) == Live(s.blocks) && Coalesce(s, b).top == s.top
  {
    MergeLive(s, b);
    assert Coalesce(s, b).blocks == Merge(s, b).blocks;
  }

  lemma MarkLive(bs: Blocks, b: int)
    requires b in bs
    ensures Live(Mark(bs, b, false)) == Live(bs) - {b}
  {
  }

  lemma FreeLive(s: State, b: int)
    requires Good(s) && s.loose == {} && b in s.blocks && s.blocks[b].alloc
    ensures Good(Free(s, b)) && Free(s, b).loose == {} && Free(s, b).top == s.top
    ensures Live(Free(s, b).blocks) == Live(s.blocks) - {b}
  {
    ReleaseGood(s, b);
    var f := Release(s, b);
    CoalesceGood(f, b);
    CoalesceLive(f, b);
    MarkLive(s.blocks, b);
  }

  lemma ExtendLive(s: State, n: int)
    requires Good(s) && s.loose == {} && 16 <= n && n % 8 == 0
    ensures Live(Extend(s, n).blocks) == Live(s.blocks)
  {
    AppendGood(s, n);
    CoalesceLive(Append(s, n), s.top);
    assert s.top !in s.blocks;
  }

  lemma ExtendPlaceLive(s: State, n: int, m: int)
    requires Good(s) && s.loose == {} && 16 <= n <= m && n % 8 == 0 && m % 8 == 0
    ensures var b := RunStart(Append(s, m).blocks, s.top);
      && Fits(Extend(s, m), n, b) && Good(Extend(s, m)) && Extend(s, m).loose == {} && b !in Live(s.blocks)
      && var s' := Place(Extend(s, m), b, n);
        Good(s') && s'.loose == {} && b in s'.blocks && n <= s'.blocks[b].size < n + 16
        && Live(s'.blocks) == Live(s.blocks)[b := s'.blocks[b]]
  {
    var e, b := Extend(s, m), RunStart(Append(s, m).blocks, s.top);
    ExtendBlock(s, m);
    ExtendLive(s, m);
    assert b !in Live(e.blocks);
    PlaceGood(e, b, n);
    PlaceLive(e, b, n);
  }

  lemma ObtainedLive(s: State, n: int, r: Option<int>, s': State)
    requires Good(s) && s.loose == {} && 16 <= n && n % 8 == 0 && Obtained(s, n, r, s')
    ensures Good(s') && s'.loose == {}
    ensures r.None? ==> s' == s
    ensures r.Some? ==> r.value in s'.blocks && r.value !in Live(s.blocks) && n <= s'.blocks[r.value].size < n + 16
    ensures r.Some? ==> Live(s'.blocks) == Live(s.blocks)[r.value := s'.blocks[r.value]]
  {
    if r.Some? {
      if exists c :: Fits(s, n, c) {
        PlaceGood(s, r.value, n);
        PlaceLive(s, r.value, n);
      } else {
        ExtendPlaceLive(s, n, ExtendSize(n));
      }
    }
  }

  // malloc does not shrink the heap.
  lemma MallocTop(s: State, size: int, r: Option<int>, s': State)
    requires Good(s) && s.loose == {} && 0 <= size <= MAX_REQUEST && Malloced(s, size, r, s')
    ensures s.top <= s'.top
  {
    if r.Some? {
      AdjustExact(size);
      var n := AdjustSize(size);
      if exists b :: Fits(s, n, b) {
        PlaceLive(s, r.value, n);
      } else {
        ExtendBlock(s, ExtendSize(n));
        PlaceLive(Extend(s, ExtendSize(n)), r.value, n);
      }
    }
  }

  // A successful malloc keeps every live block and adds one that was not live and is big enough.
  lemma MallocLive(s: State, size: int, r: Option<int>, s': State)
    requires Good(s) && s.loose == {} && 0 <= size <= MAX_REQUEST && Malloced(s, size, r, s')
    ensures Good(s') && s'.loose == {}
    ensures r.None? ==> s' == s
    ensures r.Some? ==> 0 < size && r.value in s'.blocks && r.value !in Live(s.blocks)
    ensures r.Some? ==> size + 8 <= s'.blocks[r.value].size < size + 32
    ensures r.Some? ==> Live(s'.blocks) == Live(s.blocks)[r.value := s'.blocks[r.value]]
  {
    if size > 0 {
      AdjustExact(size);
      ObtainedLive(s, AdjustSize(size), r, s');
    }
  }

  // ---------- counting free blocks ----------

  ghost function FreeBelow(bs: Blocks, a: int): set<int> {
    set b | b in bs && !bs[b].alloc && b < a
  }

  lemma FreeBelowStep(bs: Blocks, top: int, b: int)
    requires Shaped(bs, top) && Apart(bs) && b in bs
    ensures |FreeBelow(bs, End(bs, b))| == |FreeBelow(bs, b)| + if bs[b].alloc then 0 else 1
  {
    assert FreeBelow(bs, End(bs, b)) == FreeBelow(bs, b) + if bs[b].alloc then {} else {b};
  }

  ghost function FreeInBuckets(bs: Blocks, k: int): set<int> {
    set b | b in bs && !bs[b].alloc && Bucket(bs[b].size) < k
  }

  lemma {:induction false} DistinctCard(l: seq<int>)
    requires Distinct(l)
    ensures |set x | x in l| == |l|
  {
    if l == [] {
      assert (set x | x in l) == {};
    } else {
      DistinctCard(l[1..]);
      assert (set x | x in l) == {l[0]} + set x | x in l[1..];
    }
  }

  lemma FreeInBucketsStep(s: State, k: int)
    requires Good(s) && s.loose == {} && 0 <= k < LIST_NUM
    ensures |FreeInBuckets(s.blocks, k + 1)| == |FreeInBuckets(s.blocks, k)| + |s.lists[k]|
  {
    assert Distinct(s.lists[k]);
    DistinctCard(s.lists[k]);
    var here := set b | b in s.lists[k];
    var lower, upper := FreeInBuckets(s.blocks, k), FreeInBuckets(s.blocks, k + 1);
    forall b ensures b in upper <==> b in lower || b in here {
      assert b in s.lists[k] <==> IsFree(s.blocks, b) && Bucket(s.blocks[b].size) == k;
    }
    assert upper == lower + here;
    assert lower !! here;
  }

  // Every free block is below the top and in one of the ten buckets.
  lemma FreeCounts(s: State)
    requires Good(s)
    ensures FreeInBuckets(s.blocks, LIST_NUM) == FreeBelow(s.blocks, s.top)
    ensures FreeInBuckets(s.blocks, 0) == {} && FreeBelow(s.blocks, FIRST) == {}
  {
    assert forall b | b in s.blocks :: b < End(s.blocks, b) <= s.top;
    assert forall b | b in s.blocks :: 0 <= Bucket(s.blocks[b].size) < LIST_NUM;
    assert forall b :: b !in FreeInBuckets(s.blocks, 0) && b !in FreeBelow(s.blocks, FIRST);
  }
}
