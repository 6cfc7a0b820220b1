// Abstract state of the allocator in malloc lab/mm.c: the blocks that tile the
// heap and the segregated free lists, with the operations of the program as
// steps on that state. Addresses are byte offsets from first_listp, as in the
// links that the program stores.
module HeapModel {
  import opened Basics

  const LIST_NUM := 10
  const FIRST := 96 // offset of the first block: 24 words of table, padding, prologue, epilogue
  const CHUNKSIZE := 512

  // A block as its header describes it; Blocks is keyed by block pointer.
  datatype Block = Block(size: int, alloc: bool)
  type Blocks = map<int, Block>
  type Lists = seq<seq<int>>

  // loose holds the free blocks that are on no list in the middle of an operation.
  datatype State = State(top: int, blocks: Blocks, lists: Lists, loose: set<int>)

  // ---------- tiling ----------

  function End(bs: Blocks, b: int): int
    requires b in bs
  {
    b + bs[b].size
  }

  ghost predicate HasPred(bs: Blocks, c: int) {
    exists b :: b in bs && End(bs, b) == c
  }

  ghost predicate Shaped(bs: Blocks, top: int) {
    && FIRST <= top
    && (forall b | b in bs :: FIRST <= b && 16 <= bs[b].size && End(bs, b) <= top)
  }

  ghost predicate Apart(bs: Blocks) {
    forall b, c | b in bs && c in bs && b < c :: End(bs, b) <= c
  }

  ghost predicate HasNext(bs: Blocks, top: int, b: int)
    requires b in bs
  {
    End(bs, b) == top || End(bs, b) in bs
  }

  // HasNext and HasPred are the triggers: following one from block to block is left to the proofs.
  ghost predicate Chained(bs: Blocks, top: int) {
    && (forall b {:trigger HasNext(bs, top, b)} | b in bs :: HasNext(bs, top, b))
    && (forall c {:trigger HasPred(bs, c)} | c in bs && c != FIRST :: HasPred(bs, c))
    && (top == FIRST || (FIRST in bs && HasPred(bs, top)))
  }

  // The blocks cover [FIRST, top) without gap or overlap.
  ghost predicate Tiled(bs: Blocks, top: int) {
    Shaped(bs, top) && Apart(bs) && Chained(bs, top)
  }

  function Split(bs: Blocks, b: int, n: int): Blocks
    requires b in bs
  {
    bs[b := Block(n, true)][b + n := Block(bs[b].size - n, false)]
  }

  function Join(bs: Blocks, b: int): Blocks
    requires b in bs && End(bs, b) in bs
  {
    (bs - {End(bs, b)})[b := Block(bs[b].size + bs[End(bs, b)].size, false)]
  }

  function Grow(bs: Blocks, top: int, n: int): Blocks {
    bs[top := Block(n, false)]
  }

  function Mark(bs: Blocks, b: int, alloc: bool): Blocks
    requires b in bs
  {
    bs[b := Block(bs[b].size, alloc)]
  }

  // A block that ends at c in bs still ends there in bs'.
  lemma PredKept(bs: Blocks, bs': Blocks, c: int)
    requires HasPred(bs, c)
    requires forall p | p in bs && End(bs, p) == c :: p in bs' && bs'[p].size == bs[p].size
    ensures HasPred(bs', c)
  {
    var p :| p in bs && End(bs, p) == c;
    assert p in bs' && End(bs', p) == c;
  }

  lemma MarkTiled(bs: Blocks, top: int, b: int, alloc: bool)
    requires Tiled(bs, top) && b in bs
    ensures Tiled(Mark(bs, b, alloc), top)
  {
    var bs' := Mark(bs, b, alloc);
    forall c | c in bs' ensures HasNext(bs', top, c) { assert HasNext(bs, top, c); }
    forall c | HasPred(bs, c) ensures HasPred(bs', c) { PredKept(bs, bs', c); }
  }

  lemma GrowTiled(bs: Blocks, top: int, n: int)
    requires Tiled(bs, top) && 16 <= n && n % 8 == 0
    ensures Tiled(Grow(bs, top, n), top + n)
  {
    var bs' := Grow(bs, top, n);
    forall c | c in bs' ensures HasNext(bs', top + n, c) { assert c != top ==> HasNext(bs, top, c); }
    forall c | HasPred(bs, c) ensures HasPred(bs', c) { PredKept(bs, bs', c); }
    assert End(bs', top) == top + n;
  }

  lemma SplitApart(bs: Blocks, top: int, b: int, n: int)
    requires Shaped(bs, top) && Apart(bs) && b in bs && 16 <= n && 16 <= bs[b].size - n
    ensures b + n !in bs && Shaped(Split(bs, b, n), top) && Apart(Split(bs, b, n))
  {
  }

  lemma SplitPreds(bs: Blocks, b: int, n: int, c: int)
    requires b in bs && b + n !in bs && HasPred(bs, c)
    ensures HasPred(Split(bs, b, n), c)
  {
    var bs' := Split(bs, b, n);
    var p :| p in bs && End(bs, p) == c;
    if p == b { assert End(bs', b + n) == c; } else { assert p in bs' && End(bs', p) == c; }
  }

  lemma SplitChained(bs: Blocks, top: int, b: int, n: int)
    requires Chained(bs, top) && b in bs && b + n !in bs && 0 < n
    ensures Chained(Split(bs, b, n), top)
  {
    var bs' := Split(bs, b, n);
    assert HasNext(bs, top, b);
    forall c | c in bs' ensures HasNext(bs', top, c) { assert c in bs ==> HasNext(bs, top, c); }
    forall c | HasPred(bs, c) ensures HasPred(bs', c) { SplitPreds(bs, b, n, c); }
    assert End(bs', b) == b + n;
  }

  lemma SplitTiled(bs: Blocks, top: int, b: int, n: int)
    requires Tiled(bs, top) && b in bs && 16 <= n && 16 <= bs[b].size - n
    ensures Tiled(Split(bs, b, n), top)
  {
    SplitApart(bs, top, b, n);
    SplitChained(bs, top, b, n);
  }

  lemma JoinApart(bs: Blocks, top: int, b: int)
    requires Shaped(bs, top) && Apart(bs) && b in bs && End(bs, b) in bs
    ensures Shaped(Join(bs, b), top) && Apart(Join(bs, b))
  {
    var bs' := Join(bs, b);
    forall c, e | c in bs' && e in bs' && c < e ensures End(bs', c) <= e {
      assert End(bs, b) <= e || e <= b;
    }
  }

  // Only b ends where the block it swallows began.
  lemma JoinEnds(bs: Blocks, top: int, b: int, c: int)
    requires Shaped(bs, top) && Apart(bs) && b in bs && End(bs, b) in bs && c in bs && c != b
    ensures End(bs, c) != End(bs, b)
  {
    assert c < b || b < c;
  }

  lemma JoinNext(bs: Blocks, top: int, b: int, c: int)
    requires Tiled(bs, top) && b in bs && End(bs, b) in bs && c in Join(bs, b)
    ensures HasNext(Join(bs, b), top, c)
  {
    var bs', d := Join(bs, b), End(bs, b);
    if c == b {
      assert HasNext(bs, top, d) && End(bs', b) == End(bs, d) && d < End(bs, d);
    } else {
      JoinEnds(bs, top, b, c);
      assert HasNext(bs, top, c) && End(bs', c) == End(bs, c);
    }
  }

  lemma JoinPred(bs: Blocks, b: int, c: int)
    requires b in bs && End(bs, b) in bs && HasPred(bs, c) && c != End(bs, b)
    ensures HasPred(Join(bs, b), c)
  {
    var bs', d := Join(bs, b), End(bs, b);
    if c == End(bs, d) {
      assert b in bs' && End(bs', b) == c;
    } else {
      PredKept(bs, bs', c);
    }
  }

  lemma JoinTiled(bs: Blocks, top: int, b: int)
    requires Tiled(bs, top) && b in bs && End(bs, b) in bs
    ensures Tiled(Join(bs, b), top)
  {
    var bs', d := Join(bs, b), End(bs, b);
    JoinApart(bs, top, b);
    forall c | c in bs' ensures HasNext(bs', top, c) { JoinNext(bs, top, b, c); }
    forall c | HasPred(bs, c) && c != d ensures HasPred(bs', c) { JoinPred(bs, b, c); }
    assert d < top;
  }

  // ---------- alignment, lists, separation ----------

  ghost predicate AlignedAt(bs: Blocks, b: int)
    requires b in bs
  {
    b % 8 == 0 && bs[b].size % 8 == 0
  }

  ghost predicate Aligned(bs: Blocks, top: int) {
    top % 8 == 0 && forall b {:trigger AlignedAt(bs, b)} | b in bs :: AlignedAt(bs, b)
  }

  // The documented size ranges of the ten buckets.
  function Bucket(size: int): int {
    if size < 16 then 0 else if size < 32 then 1 else if size < 64 then 2 else if size < 128 then 3
    else if size < 256 then 4 else if size < 512 then 5 else if size < 1024 then 6
    else if size < 2048 then 7 else if size < 4096 then 8 else 9
  }

  ghost predicate IsFree(bs: Blocks, b: int) {
    b in bs && !bs[b].alloc
  }

  ghost predicate Distinct(l: seq<int>) {
    forall i, j | 0 <= i < j < |l| :: l[i] != l[j]
  }

  // Each bucket holds, once each, the free blocks of its size range.
  ghost predicate Listed(bs: Blocks, lists: Lists, loose: set<int>) {
    && |lists| == LIST_NUM
    && (forall k | 0 <= k < LIST_NUM :: Distinct(lists[k]))
    && (forall k, b {:trigger b in lists[k]} | 0 <= k < LIST_NUM ::
          b in lists[k] <==> IsFree(bs, b) && b !in loose && Bucket(bs[b].size) == k)
  }

  ghost predicate SeparateAt(bs: Blocks, loose: set<int>, b: int)
    requires b in bs
  {
    IsFree(bs, b) && IsFree(bs, End(bs, b)) ==> b in loose || End(bs, b) in loose
  }

  // No two neighbours are free, except around a loose block.
  ghost predicate Separated(bs: Blocks, loose: set<int>) {
    forall b {:trigger SeparateAt(bs, loose, b)} | b in bs :: SeparateAt(bs, loose, b)
  }

  ghost predicate Good(s: State) {
    && Tiled(s.blocks, s.top) && Aligned(s.blocks, s.top)
    && Listed(s.blocks, s.lists, s.loose) && Separated(s.blocks, s.loose)
    && (forall b | b in s.loose :: IsFree(s.blocks, b))
  }

  // ---------- steps ----------

  function Without(l: seq<int>, b: int): seq<int> {
    if l == [] then [] else if l[0] == b then l[1..] else [l[0]] + Without(l[1..], b)
  }

  ghost function Unlist(s: State, b: int): State
    requires |s.lists| == LIST_NUM && b in s.blocks
  {
    var k := Bucket(s.blocks[b].size);
    s.(lists := s.lists[k := Without(s.lists[k], b)], loose := s.loose + {b})
  }

  ghost function Enlist(s: State, b: int): State
    requires |s.lists| == LIST_NUM && b in s.blocks
  {
    var k := Bucket(s.blocks[b].size);
    s.(lists := s.lists[k := [b] + s.lists[k]], loose := s.loose - {b})
  }

  ghost function PredOf(bs: Blocks, c: int): (p: int)
    requires HasPred(bs, c)
    ensures p in bs && End(bs, p) == c
  {
    var p :| p in bs && End(bs, p) == c; p
  }

  ghost predicate PrevFree(bs: Blocks, b: int) {
    HasPred(bs, b) && IsFree(bs, PredOf(bs, b))
  }

  ghost predicate NextFree(bs: Blocks, b: int)
    requires b in bs
  {
    IsFree(bs, End(bs, b))
  }

  // The loose neighbours b and End(b) become one loose block.
  ghost function Fuse(s: State, b: int): State
    requires b in s.blocks && End(s.blocks, b) in s.blocks
  {
    s.(blocks := Join(s.blocks, b), loose := s.loose - {End(s.blocks, b)})
  }

  // A loose block is cut in two; the first n bytes are allocated.
  ghost function Cut(s: State, b: int, n: int): State
    requires b in s.blocks
  {
    s.(blocks := Split(s.blocks, b, n), loose := s.loose - {b} + {b + n})
  }

  ghost function Occupy(s: State, b: int): State
    requires b in s.blocks
  {
    s.(blocks := Mark(s.blocks, b, true), loose := s.loose - {b})
  }

  ghost function Release(s: State, b: int): State
    requires b in s.blocks
  {
    s.(blocks := Mark(s.blocks, b, false), loose := s.loose + {b})
  }

  ghost function Append(s: State, n: int): State {
    s.(top := s.top + n, blocks := Grow(s.blocks, s.top, n), loose := s.loose + {s.top})
  }

  // ---------- every step keeps Good ----------

  lemma {:induction false} WithoutSpec(l: seq<int>, b: int)
    requires Distinct(l)
    ensures Distinct(Without(l, b))
    ensures forall x :: x in Without(l, b) <==> x in l && x != b
  {
    if l == [] || l[0] == b {
    } else {
      WithoutSpec(l[1..], b);
      assert l[0] !in l[1..];
      assert forall x :: x in l <==> x == l[0] || x in l[1..];
    }
  }

  // Lists stay right while the listed free blocks keep their sizes.
  lemma ListedStable(bs: Blocks, bs': Blocks, lists: Lists, loose: set<int>, loose': set<int>)
    requires Listed(bs, lists, loose)
    requires forall b :: IsFree(bs, b) && b !in loose <==> IsFree(bs', b) && b !in loose'
    requires forall b | IsFree(bs, b) && b !in loose :: b in bs' && bs'[b].size == bs[b].size
    ensures Listed(bs', lists, loose')
  {
  }

  lemma PredUnique(bs: Blocks, top: int, p: int)
    requires Shaped(bs, top) && Apart(bs) && p in bs
    ensures HasPred(bs, End(bs, p)) && PredOf(bs, End(bs, p)) == p
  {
    var q := PredOf(bs, End(bs, p));
    assert p < q || q < p || p == q;
  }

  lemma UnlistGood(s: State, b: int)
    requires Good(s) && IsFree(s.blocks, b) && b !in s.loose
    ensures Good(Unlist(s, b))
  {
    var s', k := Unlist(s, b), Bucket(s.blocks[b].size);
    WithoutSpec(s.lists[k], b);
    assert Listed(s'.blocks, s'.lists, s'.loose);
    forall c | c in s.blocks ensures SeparateAt(s.blocks, s'.loose, c) { assert SeparateAt(s.blocks, s.loose, c); }
  }

  lemma EnlistListed(s: State, b: int)
    requires Listed(s.blocks, s.lists, s.loose) && b in s.loose && IsFree(s.blocks, b)
    ensures var s' := Enlist(s, b); Listed(s.blocks, s'.lists, s'.loose)
  {
    var s', k := Enlist(s, b), Bucket(s.blocks[b].size);
    assert b !in s.lists[k] && Distinct(s.lists[k]);
    assert Distinct([b] + s.lists[k]);
    forall j | 0 <= j < LIST_NUM ensures Distinct(s'.lists[j]) { assert Distinct(s.lists[j]); }
  }

  lemma EnlistGood(s: State, b: int)
    requires Good(s) && b in s.loose && !PrevFree(s.blocks, b) && !NextFree(s.blocks, b)
    ensures Good(Enlist(s, b))
  {
    var s' := Enlist(s, b);
    EnlistListed(s, b);
    forall c | c in s.blocks ensures SeparateAt(s.blocks, s'.loose, c) {
      assert SeparateAt(s.blocks, s.loose, c);
      if End(s.blocks, c) == b { PredUnique(s.blocks, s.top, c); }
    }
  }

  lemma JoinSeparated(bs: Blocks, top: int, loose: set<int>, b: int)
    requires Shaped(bs, top) && Apart(bs) && Separated(bs, loose)
    requires b in loose && b in bs && End(bs, b) in bs && End(bs, b) in loose
    ensures Separated(Join(bs, b), loose - {End(bs, b)})
  {
    var bs', d := Join(bs, b), End(bs, b);
    forall c | c in bs' ensures SeparateAt(bs', loose - {d}, c) {
      if c != b {
        assert SeparateAt(bs, loose, c);
        assert c < b || d < c;
        assert End(bs, c) != d;
      }
    }
  }

  lemma JoinListed(bs: Blocks, lists: Lists, loose: set<int>, b: int)
    requires Listed(bs, lists, loose) && b in bs && b in loose && End(bs, b) in bs && End(bs, b) in loose
    requires End(bs, b) != b
    ensures Listed(Join(bs, b), lists, loose - {End(bs, b)})
  {
    ListedStable(bs, Join(bs, b), lists, loose, loose - {End(bs, b)});
  }

  lemma JoinAligned(bs: Blocks, top: int, b: int)
    requires Aligned(bs, top) && b in bs && End(bs, b) in bs
    ensures Aligned(Join(bs, b), top)
  {
    var bs', d := Join(bs, b), End(bs, b);
    assert AlignedAt(bs, b) && AlignedAt(bs, d);
    forall c | c in bs' ensures AlignedAt(bs', c) { assert AlignedAt(bs, c); }
  }

  lemma FuseGood(s: State, b: int)
    requires Good(s) && b in s.loose && NextFree(s.blocks, b) && End(s.blocks, b) in s.loose
    ensures Good(Fuse(s, b))
  {
    var s' := Fuse(s, b);
    JoinTiled(s.blocks, s.top, b);
    JoinSeparated(s.blocks, s.top, s.loose, b);
    JoinListed(s.blocks, s.lists, s.loose, b);
    JoinAligned(s.blocks, s.top, b);
  }

  lemma SplitSeparated(bs: Blocks, loose: set<int>, b: int, n: int)
    requires b in bs && b + n !in bs && Separated(bs, loose)
    ensures Separated(Split(bs, b, n), loose - {b} + {b + n})
  {
    var bs' := Split(bs, b, n);
    forall c | c in bs' ensures SeparateAt(bs', loose - {b} + {b + n}, c) {
      if c in bs { assert SeparateAt(bs, loose, c); }
    }
  }

  lemma SplitAligned(bs: Blocks, top: int, b: int, n: int)
    requires Aligned(bs, top) && b in bs && n % 8 == 0
    ensures Aligned(Split(bs, b, n), top)
  {
    var bs' := Split(bs, b, n);
    assert AlignedAt(bs, b);
    forall c | c in bs' ensures AlignedAt(bs', c) { assert c in bs ==> AlignedAt(bs, c); }
  }

  lemma SplitListed(bs: Blocks, lists: Lists, loose: set<int>, b: int, n: int)
    requires Listed(bs, lists, loose) && b in bs && b in loose && b + n !in bs && n != 0
    ensures Listed(Split(bs, b, n), lists, loose - {b} + {b + n})
  {
    ListedStable(bs, Split(bs, b, n), lists, loose, loose - {b} + {b + n});
  }

  lemma CutGood(s: State, b: int, n: int)
    requires Good(s) && b in s.loose && n % 8 == 0 && 16 <= n && 16 <= s.blocks[b].size - n
    ensures Good(Cut(s, b, n))
  {
    var s' := Cut(s, b, n);
    assert b + n !in s.blocks;
    SplitTiled(s.blocks, s.top, b, n);
    SplitSeparated(s.blocks, s.loose, b, n);
    SplitAligned(s.blocks, s.top, b, n);
    SplitListed(s.blocks, s.lists, s.loose, b, n);
  }

  lemma MarkSeparated(bs: Blocks, loose: set<int>, b: int, alloc: bool)
    requires b in bs && Separated(bs, loose)
    ensures Separated(Mark(bs, b, alloc), if alloc then loose - {b} else loose + {b})
  {
    var bs', loose' := Mark(bs, b, alloc), if alloc then loose - {b} else loose + {b};
    forall c | c in bs' ensures SeparateAt(bs', loose', c) { assert SeparateAt(bs, loose, c); }
  }

  lemma MarkAligned(bs: Blocks, top: int, b: int, alloc: bool)
    requires Aligned(bs, top) && b in bs
    ensures Aligned(Mark(bs, b, alloc), top)
  {
    forall c | c in bs ensures AlignedAt(Mark(bs, b, alloc), c) { assert AlignedAt(bs, c); }
  }

  lemma OccupyGood(s: State, b: int)
    requires Good(s) && b in s.loose
    ensures Good(Occupy(s, b))
  {
    var s' := Occupy(s, b);
    MarkTiled(s.blocks, s.top, b, true);
    MarkSeparated(s.blocks, s.loose, b, true);
    MarkAligned(s.blocks, s.top, b, true);
    ListedStable(s.blocks, s'.blocks, s.lists, s.loose, s'.loose);
  }

  lemma ReleaseGood(s: State, b: int)
    requires Good(s) && b in s.blocks && s.blocks[b].alloc
    ensures Good(Release(s, b))
  {
    var s' := Release(s, b);
    MarkTiled(s.blocks, s.top, b, false);
    MarkSeparated(s.blocks, s.loose, b, false);
    MarkAligned(s.blocks, s.top, b, false);
    ListedStable(s.blocks, s'.blocks, s.lists, s.loose, s'.loose);
  }

  lemma GrowSeparated(bs: Blocks, loose: set<int>, top: int, n: int)
    requires top !in bs && Separated(bs, loose)
    ensures Separated(Grow(bs, top, n), loose + {top})
  {
    var bs' := Grow(bs, top, n);
    forall c | c in bs' ensures SeparateAt(bs', loose + {top}, c) {
      if c in bs { assert SeparateAt(bs, loose, c); }
    }
  }

  lemma GrowListed(bs: Blocks, lists: Lists, loose: set<int>, top: int, n: int)
    requires top !in bs && Listed(bs, lists, loose)
    ensures Listed(Grow(bs, top, n), lists, loose + {top})
  {
    ListedStable(bs, Grow(bs, top, n), lists, loose, loose + {top});
  }

  lemma GrowAligned(bs: Blocks, top: int, n: int)
    requires Aligned(bs, top) && n % 8 == 0
    ensures Aligned(Grow(bs, top, n), top + n)
  {
    var bs' := Grow(bs, top, n);
    forall c | c in bs' ensures AlignedAt(bs', c) { assert c in bs ==> AlignedAt(bs, c); }
  }

  lemma AppendGood(s: State, n: int)
    requires Good(s) && 16 <= n && n % 8 == 0
    ensures Good(Append(s, n))
  {
    var s' := Append(s, n);
    GrowTiled(s.blocks, s.top, n);
    GrowAligned(s.blocks, s.top, n);
    GrowListed(s.blocks, s.lists, s.loose, s.top, n);
    GrowSeparated(s.blocks, s.loose, s.top, n);
  }

  // The heap of mm_init before its first extension (mm.c:413-426).
  function Empty(): State {
    State(FIRST, map[], [[], [], [], [], [], [], [], [], [], []], {})
  }

  lemma EmptyGood()
    ensures Good(Empty()) && Empty().loose == {}
  {
  }

  // ---------- the program's operations ----------

  // place (mm.c:227-252): take b off its list, split it if 16 bytes or more remain.
  ghost function Place(s: State, b: int, n: int): State
    requires |s.lists| == LIST_NUM && b in s.blocks
  {
    var u := Unlist(s, b);
    if s.blocks[b].size - n >= 16 then Enlist(Cut(u, b, n), b + n) else Occupy(u, b)
  }

  // Start and end of the free run around the free block b.
  ghost function RunStart(bs: Blocks, b: int): int {
    if PrevFree(bs, b) then PredOf(bs, b) else b
  }

  ghost function RunEnd(bs: Blocks, b: int): int
    requires b in bs
  {
    if NextFree(bs, b) then End(bs, End(bs, b)) else End(bs, b)
  }

  // The blocks that start in [lo, hi) become one free block.
  function Melt(bs: Blocks, lo: int, hi: int): Blocks {
    (map c | c in bs && !(lo <= c < hi) :: bs[c])[lo := Block(hi - lo, false)]
  }

  // The free neighbours of the loose block b leave their lists.
  ghost function Detach(s: State, b: int): State
    requires Good(s) && s.loose == {b}
  {
    var s1 := if PrevFree(s.blocks, b) then Unlist(s, PredOf(s.blocks, b)) else s;
    if NextFree(s.blocks, b) then Unlist(s1, End(s.blocks, b)) else s1
  }

  ghost function Merge(s: State, b: int): State
    requires Good(s) && s.loose == {b}
  {
    var lo, hi := RunStart(s.blocks, b), RunEnd(s.blocks, b);
    Detach(s, b).(blocks := Melt(s.blocks, lo, hi), loose := {lo})
  }

  // coalesce (mm.c:267-318) on the one loose block b: the free run around b becomes one listed block.
  ghost function Coalesce(s: State, b: int): State
    requires Good(s) && s.loose == {b}
  {
    Enlist(Merge(s, b), RunStart(s.blocks, b))
  }

  // free (mm.c:478-488) of a live block, and extend_heap (mm.c:323-338) when mem_sbrk succeeds.
  ghost function Free(s: State, b: int): State
    requires Good(s) && s.loose == {} && b in s.blocks && s.blocks[b].alloc
  {
    ReleaseGood(s, b);
    Coalesce(Release(s, b), b)
  }

  ghost function Extend(s: State, n: int): State
    requires Good(s) && s.loose == {} && 16 <= n && n % 8 == 0
  {
    AppendGood(s, n);
    Coalesce(Append(s, n), s.top)
  }

  // After the cut, neither neighbour of the remainder is free.
  lemma CutEdges(s: State, b: int, n: int)
    requires Good(s) && s.loose == {} && IsFree(s.blocks, b)
    requires n % 8 == 0 && 16 <= n && 16 <= s.blocks[b].size - n
    ensures var c := Cut(Unlist(s, b), b, n); !PrevFree(c.blocks, b + n) && !NextFree(c.blocks, b + n)
  {
    UnlistGood(s, b);
    CutGood(Unlist(s, b), b, n);
    var c := Cut(Unlist(s, b), b, n);
    assert SeparateAt(s.blocks, s.loose, b);
    PredUnique(c.blocks, c.top, b);
  }

  lemma PlaceGood(s: State, b: int, n: int)
    requires Good(s) && s.loose == {} && IsFree(s.blocks, b)
    requires 16 <= n <= s.blocks[b].size && n % 8 == 0
    ensures Good(Place(s, b, n)) && Place(s, b, n).loose == {}
  {
    UnlistGood(s, b);
    if s.blocks[b].size - n >= 16 {
      CutGood(Unlist(s, b), b, n);
      CutEdges(s, b, n);
      EnlistGood(Cut(Unlist(s, b), b, n), b + n);
    } else {
      OccupyGood(Unlist(s, b), b);
    }
  }

  lemma RunEdges(s: State, b: int)
    requires Good(s) && s.loose == {b}
    ensures !PrevFree(s.blocks, RunStart(s.blocks, b)) && !IsFree(s.blocks, RunEnd(s.blocks, b))
    ensures PrevFree(s.blocks, b) ==> RunStart(s.blocks, b) < b
    ensures b < RunEnd(s.blocks, b)
  {
    var bs := s.blocks;
    if PrevFree(bs, b) {
      var p := PredOf(bs, b);
      if HasPred(bs, p) { assert SeparateAt(bs, s.loose, PredOf(bs, p)); }
    }
    if NextFree(bs, b) { assert SeparateAt(bs, s.loose, End(bs, b)); }
  }

  lemma MeltOne(bs: Blocks, top: int, b: int)
    requires Shaped(bs, top) && Apart(bs) && IsFree(bs, b)
    ensures Melt(bs, b, End(bs, b)) == bs
  {
  }

  lemma JoinIsMelt(bs: Blocks, top: int, b: int)
    requires Shaped(bs, top) && Apart(bs) && b in bs && End(bs, b) in bs
    ensures Join(bs, b) == Melt(bs, b, End(bs, End(bs, b)))
  {
    var d := End(bs, b);
    forall c | c in bs && b <= c < End(bs, d) ensures c == b || c == d { assert c < d || d < c || c == d; }
    assert forall c | c in bs && !(b <= c < End(bs, d)) :: c in Join(bs, b) && Join(bs, b)[c] == bs[c];
  }

  lemma MeltDown(bs: Blocks, top: int, p: int, hi: int)
    requires Shaped(bs, top) && Apart(bs) && p in bs && End(bs, p) in bs && End(bs, p) < hi
    ensures var bs1 := Melt(bs, End(bs, p), hi);
      p in bs1 && End(bs1, p) == End(bs, p) && Join(bs1, p) == Melt(bs, p, hi)
  {
    var b := End(bs, p);
    var bs1 := Melt(bs, b, hi);
    forall c | c in bs && p <= c < b ensures c == p { assert p < c ==> b <= c; }
  }

  lemma MergedBlocks(bs: Blocks, top: int, b: int)
    requires Shaped(bs, top) && Apart(bs) && IsFree(bs, b) && b < RunEnd(bs, b)
    ensures var bs1 := if NextFree(bs, b) then Join(bs, b) else bs;
      && b in bs1 && End(bs1, b) == RunEnd(bs, b)
      && (PrevFree(bs, b) ==> PredOf(bs, b) in bs1 && End(bs1, PredOf(bs, b)) == b)
      && Melt(bs, RunStart(bs, b), RunEnd(bs, b)) == if PrevFree(bs, b) then Join(bs1, PredOf(bs, b)) else bs1
  {
    if NextFree(bs, b) { JoinIsMelt(bs, top, b); } else { MeltOne(bs, top, b); }
    if PrevFree(bs, b) { MeltDown(bs, top, PredOf(bs, b), RunEnd(bs, b)); }
  }

  lemma MergeGood(s: State, b: int)
    requires Good(s) && s.loose == {b}
    ensures Good(Merge(s, b))
  {
    var bs, p, q := s.blocks, RunStart(s.blocks, b), End(s.blocks, b);
    RunEdges(s, b);
    MergedBlocks(bs, s.top, b);
    if PrevFree(bs, b) { UnlistGood(s, p); }
    var s1 := if PrevFree(bs, b) then Unlist(s, p) else s;
    if NextFree(bs, b) { UnlistGood(s1, q); FuseGood(Unlist(s1, q), b); }
    var s2 := if NextFree(bs, b) then Fuse(Unlist(s1, q), b) else s1;
    if PrevFree(bs, b) { FuseGood(s2, p); }
    var s3 := if PrevFree(bs, b) then Fuse(s2, p) else s2;
    assert s3.loose == {p};
    assert s3 == Merge(s, b);
  }

  lemma BlocksApart(s: State, p: int, q: int)
    requires Good(s) && p in s.blocks && q in s.blocks && p != q
    ensures End(s.blocks, p) <= q || End(s.blocks, q) <= p
    ensures End(s.blocks, p) <= s.top && End(s.blocks, q) <= s.top && s.top % 4 == 0 && p % 4 == 0 && q % 4 == 0
  {
    assert AlignedAt(s.blocks, p) && AlignedAt(s.blocks, q);
    assert p < q || q < p;
  }

  // All that the last part of coalesce relies on.
  lemma MergeReady(s: State, b: int)
    requires Good(s) && s.loose == {b}
    ensures var s', lo := Merge(s, b), RunStart(s.blocks, b);
      && Good(s') && s'.loose == {lo} && s'.top == s.top && lo in s'.blocks
      && s'.blocks[lo] == Block(RunEnd(s.blocks, b) - lo, false)
      && !PrevFree(s'.blocks, lo) && !NextFree(s'.blocks, lo)
      && s'.lists == Detach(s, b).lists && Good(Detach(s, b)) && Detach(s, b).blocks == s.blocks
      && forall c | c in s'.blocks && c != lo :: c in s.blocks && s.blocks[c] == s'.blocks[c]
  {
    DetachGood(s, b);
    MergeGood(s, b);
    MergedEdges(s, b);
  }

  // Detach in the order of the program's case 4, and in cases 2 and 3.
  lemma DetachGood(s: State, b: int)
    requires Good(s) && s.loose == {b}
    ensures Good(Detach(s, b)) && Detach(s, b).blocks == s.blocks
    ensures PrevFree(s.blocks, b) ==> Good(Unlist(s, PredOf(s.blocks, b)))
  {
    RunEdges(s, b);
    var s1 := if PrevFree(s.blocks, b) then Unlist(s, PredOf(s.blocks, b)) else s;
    if PrevFree(s.blocks, b) { UnlistGood(s, PredOf(s.blocks, b)); }
    if NextFree(s.blocks, b) { UnlistGood(s1, End(s.blocks, b)); }
  }

  // Only free blocks are melted: every allocated block survives as it is.
  lemma MergeLive(s: State, b: int)
    requires Good(s) && s.loose == {b}
    ensures var bs, bs' := s.blocks, Merge(s, b).blocks;
      && (forall c | c in bs && bs[c].alloc :: c in bs' && bs'[c] == bs[c])
      && (forall c | c in bs' && bs'[c].alloc :: c in bs && bs'[c] == bs[c])
  {
    RunMaximal(s, b);
  }

  // The run is all of the free memory around b: it consists of free blocks and neither neighbour is free.
  lemma RunMaximal(s: State, b: int)
    requires Good(s) && s.loose == {b}
    ensures var bs, lo, hi := s.blocks, RunStart(s.blocks, b), RunEnd(s.blocks, b);
      && lo <= b && End(bs, b) <= hi <= s.top
      && (forall c | c in bs && lo <= c < hi :: !bs[c].alloc && End(bs, c) <= hi)
      && !PrevFree(bs, lo) && !IsFree(bs, hi)
  {
    var bs, lo, hi := s.blocks, RunStart(s.blocks, b), RunEnd(s.blocks, b);
    RunEdges(s, b);
    forall c | c in bs && lo <= c < hi ensures !bs[c].alloc && End(bs, c) <= hi {
      if c != lo && c != b {
        assert b < c;
        assert NextFree(bs, b);
        assert c < End(bs, b) || End(bs, b) < c || c == End(bs, b);
      }
    }
  }

  // coalesce puts one free block over that run and leaves every other block as it was.
  lemma CoalesceMaximal(s: State, b: int)
    requires Good(s) && s.loose == {b}
    ensures var bs, bs', lo, hi := s.blocks, Coalesce(s, b).blocks, RunStart(s.blocks, b), RunEnd(s.blocks, b);
      && lo in bs' && bs'[lo] == Block(hi - lo, false) && lo <= b < hi
      && !PrevFree(bs', lo) && !IsFree(bs', hi)
      && (forall c | c in bs && !(lo <= c < hi) :: c in bs' && bs'[c] == bs[c])
      && (forall c | c in bs' && c != lo :: c in bs && !(lo <= c < hi))
  {
    RunMaximal(s, b);
    MergedEdges(s, b);
    assert Coalesce(s, b).blocks == Merge(s, b).blocks;
  }

  lemma CoalesceGood(s: State, b: int)
    requires Good(s) && s.loose == {b}
    ensures Good(Coalesce(s, b)) && Coalesce(s, b).loose == {}
  {
    MergeGood(s, b);
    MergedEdges(s, b);
    EnlistGood(Merge(s, b), RunStart(s.blocks, b));
  }

  // The merged block is the first of its bucket, so among blocks that fit it is the first to be used again.
  lemma CoalesceFirst(s: State, b: int)
    requires Good(s) && s.loose == {b}
    ensures var s', lo := Coalesce(s, b), RunStart(s.blocks, b);
      var l := s'.lists[Bucket(s'.blocks[lo].size)]; l != [] && l[0] == lo
  {
    MergeReady(s, b);
    assert Coalesce(s, b).blocks == Merge(s, b).blocks;
  }

  lemma MergedEdges(s: State, b: int)
    requires Good(s) && s.loose == {b}
    ensures var bs', lo := Merge(s, b).blocks, RunStart(s.blocks, b);
      lo in bs' && !PrevFree(bs', lo) && !NextFree(bs', lo)
  {
    var bs, bs', lo := s.blocks, Merge(s, b).blocks, RunStart(s.blocks, b);
    RunEdges(s, b);
    if PrevFree(bs', lo) {
      var p := PredOf(bs', lo);
      assert p in bs && End(bs, p) == lo;
      PredUnique(bs, s.top, p);
    }
  }
}
