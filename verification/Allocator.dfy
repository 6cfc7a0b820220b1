// The allocator of malloc lab/mm.c over an array of 32-bit words. Every method
// does the program's reads and writes, and is proved against a step of
// HeapModel: state is the abstract state that the words represent.
module Allocator {
  import opened Basics
  import opened HeapModel
  import opened HeapPolicy
  import opened HeapWords
  import opened HeapChecks

  const DSIZE := 8

  // A call of mem_sbrk and its outcome
  datatype SbrkCall = SbrkCall(bytes: int, granted: bool)

  class Heap {
    const mem: array<Word> // the region that mem_sbrk hands out
    var brk: int           // bytes handed out so far
    var basep: int         // heap_basep: the prologue's footer, or 0 for NULL
    ghost var words: Memory // the words below brk, each under its byte offset
    ghost var state: State
    ghost var asked: seq<SbrkCall> // all calls of mem_sbrk, which records them itself

    constructor (capacity: nat)
      requires 4 * capacity <= 0x1_0000_0000
      ensures Mapped() && brk == 0 && basep == 0 && asked == [] && fresh(mem) && mem.Length == capacity
    {
      mem := new Word[capacity];
      brk, basep, words, state, asked := 0, 0, map[], Empty(), [];
    }

    predicate IsWord(a: int)
      reads this`brk
    {
      0 <= a < brk && a % 4 == 0
    }

    ghost predicate Backed(a: int)
      reads this`words, mem
    {
      0 <= a && a / 4 < mem.Length && a in words && words[a] == mem[a / 4]
    }

    ghost predicate Mapped()
      reads this`brk, this`words, mem
    {
      && 0 <= brk <= 4 * mem.Length <= 0x1_0000_0000
      && forall a {:trigger Backed(a)} | IsWord(a) :: Backed(a)
    }

    // The words represent a good state; state.loose holds blocks between lists.
    ghost predicate Sound()
      reads this, mem
    {
      Mapped() && basep == 88 && state.top == brk && Good(state) && Rep(words, state)
    }

    ghost predicate Valid()
      reads this, mem
    {
      Sound() && state.loose == {}
    }

    function Get(a: int): (w: Word)
      requires Mapped() && IsWord(a)
      reads this`brk, this`words, mem
      ensures w == Rd(words, a)
    {
      assert Backed(a);
      mem[a / 4]
    }

    method Put(a: int, w: Word)
      requires Mapped() && IsWord(a)
      modifies mem, this`words
      ensures Mapped() && words == old(words)[a := w]
    {
      assert Backed(a);
      mem[a / 4] := w;
      words := words[a := w];
      forall c | IsWord(c) ensures Backed(c) {
        assert old(Backed(c));
      }
    }

    // mem_sbrk: fails and changes nothing, or hands out n more bytes of unknown content.
    method Sbrk(n: int) returns (r: Option<int>)
      requires Mapped() && 0 <= n
      modifies this`brk, this`words, this`asked
      ensures Mapped() && Grown(old(words), words, old(brk))
      ensures asked == old(asked) + [SbrkCall(n, r.Some?)]
      ensures r.None? ==> brk == old(brk) && words == old(words)
      ensures r.Some? ==> r.value == old(brk) && brk == old(brk) + n
    {
      r := None;
      if * {
        if brk + n <= 4 * mem.Length {
          r := Some(brk);
          ghost var more := map a | brk <= a < brk + n && a % 4 == 0 :: mem[a / 4];
          forall c | IsWord(c) ensures c in words && words[c] == mem[c / 4] { assert Backed(c); }
          words := words + more;
          brk := brk + n;
        }
      }
      asked := asked + [SbrkCall(n, r.Some?)];
    }

    function GetSize(a: int): int
      requires Mapped() && IsWord(a)
      reads this`brk, this`words, mem
    {
      SizeOf(Get(a))
    }

    predicate GetAlloc(a: int)
      requires Mapped() && IsWord(a)
      reads this`brk, this`words, mem
    {
      AllocOf(Get(a))
    }

    // The writes of ins_free_blk (mm.c:182-190).
    method SpliceIn(bp: int, index: int, ghost first: int)
      requires Mapped() && 0 <= index < LIST_NUM && LIST_NUM * 8 <= brk
      requires IsWord(bp) && IsWord(bp + 4) && IsWord(first) && IsWord(first + 4) && 80 <= bp
      requires first != bp && first != bp + 4 && first + 4 != bp
      requires Rd(words, 8 * index) == first && Rd(words, first + 4) == 8 * index
      modifies mem, this`words
      ensures Mapped()
      ensures words == InsertWords(old(words), index, first, bp)
    {
      var target := 8 * index;
      Put(bp, Get(target));
      assert Get(bp) == first;
      Put(bp + 4, Get(Get(bp) + 4));
      Put(target, bp);
      Put(Get(bp) + 4, bp);
    }

    // ins_free_blk (mm.c:180-191)
    method InsFreeBlk(bp: int, index: int)
      requires Sound() && bp in state.loose && index == Bucket(state.blocks[bp].size)
      requires !PrevFree(state.blocks, bp) && !NextFree(state.blocks, bp)
      modifies mem, this`words, this`state
      ensures Sound() && state == Enlist(old(state), bp) && Kept(old(words), words, old(state).blocks)
    {
      ghost var m, s, first := words, state, Ring(index, state.lists[index])[1];
      InsertReads(m, s, bp);
      NodeBounds(s, index, bp);
      NodeBounds(s, index, first);
      SpliceIn(bp, index, first);
      InsertRep(m, s, bp, first);
      EnlistGood(s, bp);
      state := Enlist(s, bp);
    }

    // The writes of del_free_blk (mm.c:197-198).
    method SpliceOut(bp: int)
      requires Mapped() && IsWord(bp) && IsWord(bp + 4)
      requires var nxt := Get(bp); IsWord(nxt + 4) && nxt != bp && nxt + 4 != bp
      requires IsWord(Get(bp + 4))
      modifies mem, this`words
      ensures Mapped()
      ensures words == DeleteWords(old(words), old(Get(bp + 4)), old(Get(bp)))
    {
      Put(Get(bp) + 4, Get(bp + 4));
      Put(Get(bp + 4), Get(bp));
    }

    // del_free_blk (mm.c:196-199)
    method DelFreeBlk(bp: int)
      requires Sound() && IsFree(state.blocks, bp) && bp !in state.loose
      modifies mem, this`words, this`state
      ensures Sound() && state == Unlist(old(state), bp) && Kept(old(words), words, old(state).blocks)
    {
      ghost var m, s, k := words, state, Bucket(state.blocks[bp].size);
      ghost var j := DeleteReads(m, s, bp);
      ghost var prv, nxt := Ring(k, s.lists[k])[j], Ring(k, s.lists[k])[j + 2];
      NodeBounds(s, k, bp);
      NodeBounds(s, k, prv);
      NodeBounds(s, k, nxt);
      SpliceOut(bp);
      DeleteRep(m, s, bp, j, prv, nxt);
      UnlistGood(s, bp);
      state := Unlist(s, bp);
    }

    // HDRP, FTRP, NEXT_BLKP and PREV_BLKP (mm.c:137-138, 149-150)
    function NextBlkp(bp: int): int
      requires Mapped() && IsWord(bp - 4)
      reads this`brk, this`words, mem
    {
      bp + GetSize(bp - 4)
    }

    function PrevBlkp(bp: int): int
      requires Mapped() && IsWord(bp - 8)
      reads this`brk, this`words, mem
    {
      bp - GetSize(bp - 8)
    }

    function Ftrp(bp: int): int
      requires Mapped() && IsWord(bp - 4)
      reads this`brk, this`words, mem
    {
      bp + GetSize(bp - 4) - 8
    }

    // PUT(HDRP(bp), PACK(size, alloc)); PUT(FTRP(bp), PACK(size, alloc));
    method PutTags(bp: int, size: int, alloc: bool)
      requires Mapped() && 0 <= bp - 4 && bp + size - 4 <= brk && 8 <= size
      requires bp % 8 == 0 && size % 8 == 0
      modifies mem, this`words
      ensures Mapped() && SizeOf(Rd(words, bp - 4)) == size
      ensures words == TagWords(old(words), bp, size, Pack(Block(size, alloc)))
    {
      var w: Word := Pack(Block(size, alloc));
      TagMath(bp, size);
      Unpack(Block(size, alloc), w);
      Put(bp - 4, w);
      Put(Ftrp(bp), w);
    }

    // list_index (mm.c:205-221)
    static method ListIndex(size: int) returns (idx: int)
      requires 0 <= size
      ensures idx == Bucket(size)
    {
      idx := 0;
      var rest := size / 16;
      while rest > 0
        invariant 0 <= idx && 0 <= rest
        invariant rest * Pow2(idx) * 16 <= size < (rest + 1) * Pow2(idx) * 16
        invariant 0 < idx ==> Pow2(idx - 1) * 16 <= size
        decreases rest
      {
        HalfStep(size, rest, Pow2(idx));
        idx := idx + 1;
        rest := rest / 2;
      }
      LogBucket(size, idx);
      if idx > LIST_NUM - 1 {
        idx := LIST_NUM - 1;
      }
    }

    // The tag writes of a split (mm.c:234-241).
    method PutSplit(bp: int, asize: int, bsize: int) returns (rest: int)
      requires Mapped() && 0 <= bp - 4 && bp + bsize - 4 <= brk && bp % 8 == 0
      requires 16 <= asize && asize % 8 == 0 && 16 <= bsize - asize && bsize % 8 == 0
      modifies mem, this`words
      ensures Mapped()
      ensures rest == bp + asize
      ensures words == TagWords(TagWords(old(words), bp, asize, asize + 1), bp + asize, bsize - asize, bsize - asize)
    {
      PutTags(bp, asize, true);
      TagMath(bp, asize);
      AddEights(bp, asize);
      AddEights(bsize, asize);
      rest := bp + GetSize(bp - 4);
      PutTags(rest, bsize - asize, false);
    }

    method WriteCut(bp: int, asize: int, bsize: int) returns (rest: int)
      requires Sound() && bp in state.loose && bsize == state.blocks[bp].size
      requires 16 <= asize && asize % 8 == 0 && 16 <= bsize - asize
      modifies mem, this`words, this`state
      ensures Sound() && state == Cut(old(state), bp, asize) && rest == bp + asize
      ensures Kept(old(words), words, state.blocks)
    {
      ghost var m, s := words, state;
      TagBounds(s, bp);
      rest := PutSplit(bp, asize, bsize);
      CutRep(m, s, bp, asize, asize + 1, bsize - asize);
      CutGood(s, bp, asize);
      state := Cut(s, bp, asize);
    }

    // The two branches of place (mm.c:231-244, 247-250).
    method PlaceSplit(bp: int, asize: int, bsize: int)
      requires Valid() && IsFree(state.blocks, bp) && bsize == state.blocks[bp].size
      requires 16 <= asize && asize % 8 == 0 && 16 <= bsize - asize
      modifies mem, this`words, this`state
      ensures Sound() && state == Enlist(Cut(Unlist(old(state), bp), bp, asize), bp + asize)
      ensures Kept(old(words), words, old(state).blocks)
    {
      ghost var m0, s0 := words, state;
      CutEdges(s0, bp, asize);
      DelFreeBlk(bp);
      ghost var m1 := words;
      var rest := WriteCut(bp, asize, bsize);
      ghost var m2, bs2 := words, state.blocks;
      var idx := ListIndex(bsize - asize);
      InsFreeBlk(rest, idx);
      KeptTrans(m1, m2, words, bs2);
      KeptFewer(m1, words, bs2, s0.blocks);
      KeptTrans(m0, m1, words, s0.blocks);
    }

    method PlaceWhole(bp: int, bsize: int)
      requires Valid() && IsFree(state.blocks, bp) && bsize == state.blocks[bp].size
      modifies mem, this`words, this`state
      ensures Sound() && state == Occupy(Unlist(old(state), bp), bp)
      ensures Kept(old(words), words, old(state).blocks)
    {
      ghost var m0, s0 := words, state;
      TagBounds(s0, bp);
      DelFreeBlk(bp);
      ghost var m1, s1 := words, state;
      OccupyGood(s1, bp);
      PutTags(bp, bsize, true);
      Retag(m1, s1, Occupy(s1, bp), bp, bsize + 1);
      state := Occupy(s1, bp);
      KeptFewer(m1, words, state.blocks, s0.blocks);
      KeptTrans(m0, m1, words, s0.blocks);
    }

    // place (mm.c:227-252)
    method Place(bp: int, asize: int)
      requires Valid() && IsFree(state.blocks, bp)
      requires 16 <= asize <= state.blocks[bp].size && asize % 8 == 0
      modifies mem, this`words, this`state
      ensures Valid() && state == HeapModel.Place(old(state), bp, asize)
      ensures Kept(old(words), words, old(state).blocks)
    {
      PlaceGood(state, bp, asize);
      TagReads(words, state, bp);
      TagBounds(state, bp);
      var bsize := GetSize(bp - 4);
      if bsize - asize >= 2 * DSIZE {
        PlaceSplit(bp, asize, bsize);
      } else {
        PlaceWhole(bp, bsize);
      }
    }

    // The tests at the head of coalesce (mm.c:269-270).
    method PrevAllocated(bp: int) returns (alloc: bool)
      requires Sound() && bp in state.blocks
      ensures alloc == !PrevFree(state.blocks, bp)
    {
      TagBounds(state, bp);
      PrevReads(words, state, bp);
      var p := PrevBlkp(bp);
      TagMath(p, 8);
      alloc := GetAlloc(Ftrp(p));
    }

    method NextAllocated(bp: int) returns (alloc: bool)
      requires Sound() && bp in state.blocks
      ensures alloc == !NextFree(state.blocks, bp)
    {
      TagBounds(state, bp);
      TagReads(words, state, bp);
      NextReads(words, state, bp);
      alloc := GetAlloc(NextBlkp(bp) - 4);
    }

    // The end of cases 2, 3 and 4 (mm.c:284-288, 295-299, 308-314).
    method Relist(lo: int, size: int, ghost s: State, ghost b: int)
      requires Good(s) && s.loose == {b} && Sound() && state == Detach(s, b)
      requires lo == RunStart(s.blocks, b) && size == RunEnd(s.blocks, b) - lo
      modifies mem, this`words, this`state
      ensures Valid() && state == HeapModel.Coalesce(s, b) && Kept(old(words), words, s.blocks)
    {
      ghost var m0, s2 := words, Merge(s, b);
      MergeReady(s, b);
      TagBounds(s2, lo);
      var idx := ListIndex(size);
      PutTags(lo, size, false);
      MergeRep(m0, s, b, size);
      ghost var m1 := words;
      state := s2;
      InsFreeBlk(lo, idx);
      KeptAcrossMerge(m0, m1, words, s, b);
    }

    // Case 2 (mm.c:278-289)
    method CoalescePrev(bp: int, size0: int) returns (r: int)
      requires Sound() && state.loose == {bp} && size0 == state.blocks[bp].size
      requires PrevFree(state.blocks, bp) && !NextFree(state.blocks, bp)
      modifies mem, this`words, this`state
      ensures Valid() && state == HeapModel.Coalesce(old(state), bp) && r == RunStart(old(state).blocks, bp)
      ensures Kept(old(words), words, old(state).blocks)
    {
      ghost var m0, s := words, state;
      RunEdges(s, bp);
      TagBounds(s, bp);
      PrevReads(words, s, bp);
      DelFreeBlk(PrevBlkp(bp));
      ghost var m1 := words;
      PrevReads(words, state, bp);
      r := PrevBlkp(bp);
      TagBounds(state, r);
      TagReads(words, state, r);
      var size := size0 + GetSize(r - 4);
      Relist(r, size, s, bp);
      KeptTrans(m0, m1, words, s.blocks);
    }

    // Case 3 (mm.c:290-300)
    method CoalesceNext(bp: int, size0: int) returns (r: int)
      requires Sound() && state.loose == {bp} && size0 == state.blocks[bp].size
      requires !PrevFree(state.blocks, bp) && NextFree(state.blocks, bp)
      modifies mem, this`words, this`state
      ensures Valid() && state == HeapModel.Coalesce(old(state), bp) && r == RunStart(old(state).blocks, bp)
      ensures Kept(old(words), words, old(state).blocks)
    {
      ghost var m0, s := words, state;
      RunEdges(s, bp);
      TagBounds(s, bp);
      TagReads(words, s, bp);
      DelFreeBlk(NextBlkp(bp));
      ghost var m1 := words;
      TagReads(words, state, bp);
      TagBounds(state, End(s.blocks, bp));
      TagReads(words, state, End(s.blocks, bp));
      var size := size0 + GetSize(NextBlkp(bp) - 4);
      r := bp;
      Relist(r, size, s, bp);
      KeptTrans(m0, m1, words, s.blocks);
    }

    // Case 4 (mm.c:301-315)
    method CoalesceBoth(bp: int, size0: int) returns (r: int)
      requires Sound() && state.loose == {bp} && size0 == state.blocks[bp].size
      requires PrevFree(state.blocks, bp) && NextFree(state.blocks, bp)
      modifies mem, this`words, this`state
      ensures Valid() && state == HeapModel.Coalesce(old(state), bp) && r == RunStart(old(state).blocks, bp)
      ensures Kept(old(words), words, old(state).blocks)
    {
      ghost var m0, s := words, state;
      RunEdges(s, bp);
      TagBounds(s, bp);
      PrevReads(words, s, bp);
      DelFreeBlk(PrevBlkp(bp));
      ghost var m1 := words;
      TagReads(words, state, bp);
      DelFreeBlk(NextBlkp(bp));
      ghost var m2 := words;
      KeptTrans(m0, m1, m2, s.blocks);
      var size: int;
      r, size := RunExtent(bp, size0);
      Relist(r, size, s, bp);
      KeptTrans(m0, m2, words, s.blocks);
    }

    // Start and size of the three blocks together (mm.c:306-310).
    method RunExtent(bp: int, size0: int) returns (r: int, size: int)
      requires Sound() && bp in state.blocks && size0 == state.blocks[bp].size
      requires PrevFree(state.blocks, bp) && NextFree(state.blocks, bp)
      ensures r == PredOf(state.blocks, bp) && size == End(state.blocks, End(state.blocks, bp)) - r
    {
      TagBounds(state, bp);
      TagReads(words, state, bp);
      PrevReads(words, state, bp);
      r := PrevBlkp(bp);
      TagBounds(state, r);
      TagReads(words, state, r);
      TagBounds(state, End(state.blocks, bp));
      TagReads(words, state, End(state.blocks, bp));
      size := size0 + GetSize(PrevBlkp(bp) - 4);
      size := size + GetSize(NextBlkp(bp) - 4);
    }

    // coalesce (mm.c:267-318)
    method Coalesce(bp: int) returns (r: int)
      requires Sound() && state.loose == {bp}
      modifies mem, this`words, this`state
      ensures Valid() && state == HeapModel.Coalesce(old(state), bp) && r == RunStart(old(state).blocks, bp)
      ensures Kept(old(words), words, old(state).blocks)
    {
      TagBounds(state, bp);
      TagReads(words, state, bp);
      var prevAlloc := PrevAllocated(bp);
      var nextAlloc := NextAllocated(bp);
      var size := GetSize(bp - 4);
      if prevAlloc && nextAlloc {
        MeltOne(state.blocks, state.top, bp);
        assert Merge(state, bp) == state;
        var idx := ListIndex(size);
        InsFreeBlk(bp, idx);
        r := bp;
      } else if !prevAlloc && nextAlloc {
        r := CoalescePrev(bp, size);
      } else if prevAlloc && !nextAlloc {
        r := CoalesceNext(bp, size);
      } else {
        r := CoalesceBoth(bp, size);
      }
    }

    // The writes of extend_heap (mm.c:333-335).
    method PutNewBlock(bp: int, size: int)
      requires Mapped() && 0 <= bp - 4 && bp + size == brk && 8 <= size
      requires bp % 8 == 0 && size % 8 == 0
      modifies mem, this`words
      ensures Mapped() && size < 0x1_0000_0000 && words == AppendWords(old(words), bp, size)
    {
      PutTags(bp, size, false);
      TagMath(bp, size);
      Put(NextBlkp(bp) - 4, 1);
    }

    // The program's mem_sbrk and the new block, before coalescing.
    method AppendBlock(size: int) returns (r: Option<int>)
      requires Valid() && 16 <= size && size % 8 == 0
      modifies this, mem
      ensures r.None? ==> Valid() && state == old(state) && words == old(words) && brk == old(brk)
      ensures r.Some? ==> Sound() && state == Append(old(state), size) && r.value == old(state).top
      ensures Kept(old(words), words, old(state).blocks)
      ensures asked == old(asked) + [SbrkCall(size, r.Some?)]
    {
      ghost var m0, s := words, state;
      r := Sbrk(size);
      if r.Some? {
        ghost var m1 := words;
        PutNewBlock(r.value, size);
        AppendRep(m0, m1, s, size);
        AppendGood(s, size);
        state := Append(s, size);
      }
    }

    // extend_heap's rounding to an even number of words (mm.c:328)
    static function EvenBytes(nwords: int): (n: int)
      requires 0 <= nwords
      ensures n % 8 == 0 && 4 * nwords <= n <= 4 * nwords + 4
    {
      if nwords % 2 != 0 then 4 * (nwords + 1) else 4 * nwords
    }

    // extend_heap (mm.c:323-338)
    method ExtendHeap(nwords: int) returns (r: Option<int>)
      requires Valid() && 4 <= nwords
      modifies this, mem
      ensures Valid() && Kept(old(words), words, old(state).blocks)
      ensures r.None? ==> state == old(state) && words == old(words) && brk == old(brk)
      ensures r.Some? ==> var n := EvenBytes(nwords);
        state == Extend(old(state), n) && r.value == RunStart(Append(old(state), n).blocks, old(state).top)
      ensures asked == old(asked) + [SbrkCall(EvenBytes(nwords), r.Some?)]
    {
      ghost var m0, s := words, state;
      var size := EvenBytes(nwords);
      var bp := AppendBlock(size);
      if bp.None? {
        return None;
      }
      ghost var m1 := words;
      var lo := Coalesce(bp.value);
      KeptFewer(m1, words, Append(s, size).blocks, s.blocks);
      KeptTrans(m0, m1, words, s.blocks);
      return Some(lo);
    }

    // free (mm.c:478-488)
    method Free(ptr: Option<int>)
      requires Valid() && (ptr.Some? ==> ptr.value in state.blocks && state.blocks[ptr.value].alloc)
      modifies mem, this`words, this`state
      ensures Valid() && Kept(old(words), words, state.blocks)
      ensures state == if ptr.None? then old(state) else HeapModel.Free(old(state), ptr.value)
      ensures ptr.None? ==> words == old(words)
    {
      if ptr.None? {
        return;
      }
      var bp := ptr.value;
      ghost var m0, s := words, state;
      TagBounds(s, bp);
      TagReads(m0, s, bp);
      var size := GetSize(bp - 4);
      PutTags(bp, size, false);
      ReleaseGood(s, bp);
      Retag(m0, s, Release(s, bp), bp, size);
      ghost var m1 := words;
      state := Release(s, bp);
      ghost var r := Coalesce(bp);
      MergeLive(Release(s, bp), bp);
      KeptTrans(m0, m1, words, Release(s, bp).blocks);
      KeptFewer(m0, words, Release(s, bp).blocks, state.blocks);
    }

    // The first-fit walk of one bucket (mm.c:354-360).
    method FirstFitBucket(asize: int, k: int) returns (r: Option<int>)
      requires Valid() && 0 <= Bucket(asize) <= k < LIST_NUM && asize < 128
      requires BestSoFar(state, asize, Bucket(asize), k, 0, None)
      ensures r.Some? ==> Chosen(state, asize, r.value)
      ensures r.None? ==> BestSoFar(state, asize, Bucket(asize), k + 1, 0, None)
    {
      var head := 8 * k;
      RingStep(words, state, k, 0);
      NodeBounds(state, k, head);
      var bp := Get(head);
      ghost var i := 0;
      while bp != head
        invariant 0 <= i <= |state.lists[k]| && bp == Ring(k, state.lists[k])[i + 1]
        invariant bp != head <==> i < |state.lists[k]|
        invariant BestSoFar(state, asize, Bucket(asize), k, i, None)
        decreases |state.lists[k]| - i
      {
        WalkReads(words, state, k, i);
        if !GetAlloc(bp - 4) && GetSize(bp - 4) >= asize {
          FirstFound(state, asize, k, i);
          return Some(bp);
        }
        NoneStep(state, asize, Bucket(asize), k, i);
        bp := Get(bp);
        i := i + 1;
      }
      BestBucket(state, asize, Bucket(asize), k, None);
      return None;
    }

    // The best-fit walk of one bucket (mm.c:373-384).
    method BestFitBucket(asize: int, k: int, best0: Option<int>, bestSize0: int)
      returns (best: Option<int>, bestSize: int)
      requires Valid() && 0 <= Bucket(asize) <= k < LIST_NUM && 128 <= asize
      requires BestSoFar(state, asize, Bucket(asize), k, 0, best0)
      requires best0.Some? ==> bestSize0 == state.blocks[best0.value].size
      ensures BestSoFar(state, asize, Bucket(asize), k + 1, 0, best)
      ensures best.Some? ==> bestSize == state.blocks[best.value].size
    {
      best, bestSize := best0, bestSize0;
      var head := 8 * k;
      RingStep(words, state, k, 0);
      NodeBounds(state, k, head);
      var bp := Get(head);
      ghost var i := 0;
      while bp != head
        invariant 0 <= i <= |state.lists[k]| && bp == Ring(k, state.lists[k])[i + 1]
        invariant bp != head <==> i < |state.lists[k]|
        invariant BestSoFar(state, asize, Bucket(asize), k, i, best)
        invariant best.Some? ==> bestSize == state.blocks[best.value].size
        decreases |state.lists[k]| - i
      {
        ghost var before := best;
        WalkReads(words, state, k, i);
        if !GetAlloc(bp - 4) && GetSize(bp - 4) >= asize {
          if best.None? || GetSize(bp - 4) < bestSize {
            bestSize := GetSize(bp - 4);
            best := Some(bp);
          }
        }
        BestStep(state, asize, Bucket(asize), k, i, before, best);
        bp := Get(bp);
        i := i + 1;
      }
      BestBucket(state, asize, Bucket(asize), k, best);
    }

    // find_fit (mm.c:343-390)
    method FindFit(asize: int) returns (r: Option<int>)
      requires Valid() && 0 <= asize
      ensures r.None? ==> forall b :: !Fits(state, asize, b)
      ensures r.Some? ==> Chosen(state, asize, r.value)
      ensures r.None? ==> forall c | c in state.blocks && !state.blocks[c].alloc :: state.blocks[c].size < asize
      ensures r.Some? ==> FoundFor(state, asize, r.value)
    {
      var idx := ListIndex(asize);
      var k := idx;
      if idx < 4 {
        while k != LIST_NUM
          invariant idx <= k <= LIST_NUM && BestSoFar(state, asize, idx, k, 0, None)
        {
          r := FirstFitBucket(asize, k);
          if r.Some? {
            ChosenIsFound(state, asize, r.value);
            return;
          }
          k := k + 1;
        }
        r := None;
      } else {
        var bestSize := 16 * Pow2(idx);
        r := None;
        while k != LIST_NUM
          invariant idx <= k <= LIST_NUM && BestSoFar(state, asize, idx, k, 0, r)
          invariant r.Some? ==> bestSize == state.blocks[r.value].size
        {
          r, bestSize := BestFitBucket(asize, k, r, bestSize);
          k := k + 1;
        }
      }
      BestEnd(state, asize, r);
      NoneFits(state, asize);
      if r.Some? { ChosenIsFound(state, asize, r.value); }
    }

    // The one call of mem_sbrk that malloc makes when no block fits, and only then: for the rounded size or
    // 512 bytes, whichever is more. Malloc succeeds exactly if it is granted.
    static ghost function AsksFor(s: State, size: int, granted: bool): seq<SbrkCall>
      requires 0 <= size <= MAX_REQUEST
    {
      if size == 0 then [] else
        var n := AdjustSize(size);
        if exists b :: Fits(s, n, b) then [] else [SbrkCall(if n > 512 then n else 512, granted)]
    }

    // malloc (mm.c:440-472)
    method Malloc(size: int) returns (r: Option<int>)
      requires Valid() && 0 <= size <= MAX_REQUEST
      modifies this, mem
      ensures Valid() && Malloced(old(state), size, r, state) && Kept(old(words), words, old(state).blocks)
      ensures r.None? ==> words == old(words)
      ensures asked == old(asked) + AsksFor(old(state), size, r.Some?)
    {
      if size == 0 {
        return None;
      }
      AdjustExact(size);
      var adjustsize := AdjustSize(size);
      r := FindFit(adjustsize);
      if r.Some? {
        Place(r.value, adjustsize);
        return;
      }
      r := ExtendAndPlace(adjustsize);
    }

    // The extension path of malloc (mm.c:465-469).
    method ExtendAndPlace(adjustsize: int) returns (r: Option<int>)
      requires Valid() && 16 <= adjustsize && adjustsize % 8 == 0
      modifies this, mem
      ensures Valid() && Kept(old(words), words, old(state).blocks)
      ensures r.None? ==> state == old(state) && words == old(words)
      ensures r.Some? ==> var n := ExtendSize(adjustsize);
        && r.value == RunStart(Append(old(state), n).blocks, old(state).top)
        && Fits(Extend(old(state), n), adjustsize, r.value)
        && state == HeapModel.Place(Extend(old(state), n), r.value, adjustsize)
      ensures asked == old(asked) + [SbrkCall(if adjustsize > 512 then adjustsize else 512, r.Some?)]
    {
      ghost var m0, s := words, state;
      var extendsize := if adjustsize > CHUNKSIZE then adjustsize else CHUNKSIZE;
      assert EvenBytes(extendsize / 4) == extendsize;
      r := ExtendHeap(extendsize / 4);
      if r.Some? {
        ghost var m1 := words;
        ExtendBlock(s, extendsize);
        Place(r.value, adjustsize);
        KeptAcrossExtend(m0, m1, words, s, extendsize);
      }
    }

    // memcpy of n whole words, and of n < 4 further bytes, between regions that do not overlap
    method CopyWords(dst: int, src: int, n: int)
      requires Mapped() && 0 <= n && IsWord(dst) && dst + 4 * n <= brk && IsWord(src) && src + 4 * n <= brk
      requires src + 4 * n <= dst || dst + 4 * n <= src
      modifies mem, this`words
      ensures Mapped() && forall j {:trigger WordCopied(old(words), src, words, dst, j)} | 0 <= j < n ::
                WordCopied(old(words), src, words, dst, j)
      ensures forall a | a < dst || dst + 4 * n <= a :: Rd(words, a) == Rd(old(words), a)
    {
      ghost var m := words;
      for j := 0 to n
        invariant Mapped()
        invariant forall i {:trigger WordCopied(m, src, words, dst, i)} | 0 <= i < j ::
                    WordCopied(m, src, words, dst, i)
        invariant forall a | a < dst || dst + 4 * j <= a :: Rd(words, a) == Rd(m, a)
      {
        ghost var m1 := words;
        Put(dst + 4 * j, Get(src + 4 * j));
        forall i | 0 <= i < j + 1 ensures WordCopied(m, src, words, dst, i) {
          assert i < j ==> WordCopied(m, src, m1, dst, i);
        }
      }
    }

    method CopyTail(dst: int, src: int, n: int)
      requires Mapped() && 0 <= n < 4 && IsWord(dst) && IsWord(src)
      modifies mem, this`words
      ensures Mapped() && LowBytes(Rd(words, dst), Rd(old(words), src), n)
      ensures forall a | a != dst :: Rd(words, a) == Rd(old(words), a)
    {
      var w, v := Get(dst), Get(src);
      TakeBytesWord(w, v, n);
      Put(dst, TakeBytes(w, v, n));
      forall i: nat | i < n ensures ByteOf(Rd(words, dst), i) == ByteOf(v, i) { TakeBytesSpec(w, v, n, i); }
    }

    method Memcpy(dst: int, src: int, n: int)
      requires Mapped() && brk % 4 == 0 && 0 <= n && IsWord(dst) && dst + n <= brk && IsWord(src) && src + n <= brk
      requires src + n <= dst || dst + n <= src
      modifies mem, this`words
      ensures Mapped() && Copied(old(words), src, words, dst, n)
      ensures forall a | a < dst || dst + n <= a :: Rd(words, a) == Rd(old(words), a)
    {
      var q, r := n / 4, n % 4;
      ghost var m := words;
      CopyWords(dst, src, q);
      ghost var m1 := words;
      if r > 0 {
        CopyTail(dst + 4 * q, src + 4 * q, r);
      }
      CopiedInParts(m, m1, words, src, dst, q, r);
    }

    // realloc (mm.c:494-523); mid is the state between its malloc and its free
    method Realloc(oldptr: Option<int>, size: int) returns (r: Option<int>, ghost mid: State)
      requires Valid() && 0 <= size <= MAX_REQUEST
      requires oldptr.Some? ==> oldptr.value in state.blocks && state.blocks[oldptr.value].alloc
      modifies this, mem
      ensures Valid()
      ensures size == 0 ==> r == None && mid == old(state) && Kept(old(words), words, state.blocks)
      ensures size == 0 ==> state == if oldptr.None? then old(state) else HeapModel.Free(old(state), oldptr.value)
      ensures size > 0 ==> Malloced(old(state), size, r, mid)
      ensures size > 0 && (oldptr.None? || r.None?) ==> state == mid && Kept(old(words), words, old(state).blocks)
      ensures size > 0 && oldptr.Some? && r.Some? ==>
        IsMove(old(state), mid, state, oldptr.value) && Kept(old(words), words, old(state).blocks - {oldptr.value})
      ensures asked == old(asked) + AsksFor(old(state), size, r.Some?)
      ensures size > 0 && oldptr.Some? && r.Some? ==>
        Copied(old(words), oldptr.value, words, r.value, Min(size, old(state).blocks[oldptr.value].size - 8))
    {
      mid := state;
      if size == 0 {
        Free(oldptr);
        return None, mid;
      }
      ghost var m0, s0 := words, state;
      r := Malloc(size);
      mid := state;
      if oldptr.None? || r.None? {
        return;
      }
      CopyAndFree(oldptr.value, r.value, size, m0, s0);
    }

    // The copy and the release at the end of realloc (mm.c:515-520).
    method CopyAndFree(p: int, q: int, size: int, ghost m0: Memory, ghost s0: State)
      requires Valid() && Good(s0) && s0.loose == {} && 0 < size <= MAX_REQUEST && Malloced(s0, size, Some(q), state)
      requires p in s0.blocks && s0.blocks[p].alloc && Kept(m0, words, s0.blocks)
      modifies mem, this`words, this`state
      ensures Valid() && IsMove(s0, old(state), state, p)
      ensures Kept(m0, words, s0.blocks - {p}) && Copied(m0, p, words, q, Min(size, s0.blocks[p].size - 8))
    {
      ghost var m1, s1 := words, state;
      MallocLive(s0, size, Some(q), s1);
      assert p in Live(s0.blocks) && p in Live(s1.blocks) && q in Live(s1.blocks);
      CopyPayload(p, q, size);
      ghost var m2 := words;
      FreeLive(s1, p);
      Free(Some(p));
      CopiedLess(m1, p, m2, q, Min(size, s1.blocks[p].size), Min(size, s0.blocks[p].size - 8));
      CopyResult(m0, m1, m2, words, s0, s1, state, p, q, Min(size, s0.blocks[p].size - 8));
      CopyKept(m0, m1, m2, words, s0, s1, state, p, q);
    }

    // The copy (mm.c:515-519): whole old block or requested size, whichever is less.
    method CopyPayload(p: int, q: int, size: int)
      requires Valid() && 0 < size && p != q && p in state.blocks && q in state.blocks
      requires state.blocks[q].alloc && size + 8 <= state.blocks[q].size
      modifies mem, this`words
      ensures Valid() && Kept(old(words), words, state.blocks - {q})
      ensures Copied(old(words), p, words, q, Min(size, state.blocks[p].size))
    {
      ghost var m := words;
      TagBounds(state, p);
      TagBounds(state, q);
      TagReads(m, state, p);
      BlocksApart(state, p, q);
      var oldsize := GetSize(p - 4);
      if oldsize > size {
        oldsize := size;
      }
      Memcpy(q, p, oldsize);
      PayloadWrite(m, words, state, q);
    }

    // The table of mm_init (mm.c:412-418): the head of each empty bucket is linked to itself.
    method PutTable()
      requires Mapped() && brk == FIRST
      modifies mem, this`words
      ensures Mapped()
      ensures forall k | 0 <= k < LIST_NUM :: Rd(words, 8 * k) == 8 * k && Rd(words, 8 * k + 4) == 8 * k
    {
      var offset := 0;
      var i := 0;
      while i < LIST_NUM
        invariant 0 <= i <= LIST_NUM && offset == 8 * i && Mapped()
        invariant forall k | 0 <= k < i :: Rd(words, 8 * k) == 8 * k && Rd(words, 8 * k + 4) == 8 * k
      {
        Put(offset, offset);
        Put(offset + 4, offset);
        offset := offset + DSIZE;
        i := i + 1;
      }
    }

    // The table and the walls of mm_init (mm.c:412-426).
    method PutPreamble()
      requires Mapped() && brk == FIRST
      modifies mem, this`words
      ensures Mapped() && Rep(words, Empty())
    {
      PutTable();
      Put(80, 0);
      Put(84, DSIZE + 1);
      Put(88, DSIZE + 1);
      Put(92, 1);
      forall k | 0 <= k < LIST_NUM ensures Linked(words, k, Empty().lists[k]) {
        assert Rd(words, 8 * k) == 8 * k;
        assert LinkAt(words, Ring(k, []), 0);
      }
    }

    // mm_init (mm.c:399-434)
    method Init() returns (ok: bool)
      requires Mapped() && brk == 0
      modifies this, mem
      ensures ok ==> Valid() && state == Extend(Empty(), 4096)
      ensures !ok ==> brk == 0 || (Valid() && state == Empty())
      ensures asked == old(asked) + [SbrkCall(96, brk != 0)] + if brk == 0 then [] else [SbrkCall(4096, ok)]
      ensures ok ==> brk != 0
    {
      var base := Sbrk(FIRST);
      if base.None? {
        return false;
      }
      PutPreamble();
      basep, state := 88, Empty();
      EmptyGood();
      var bp := ExtendHeap(4096 / 4);
      return bp.Some?;
    }

    // aligned and in_heap (mm.c:542-552)
    static predicate IsAligned(p: int) {
      (p + 7) / 8 * 8 == p
    }

    predicate InHeap(p: int)
      reads this`brk
    {
      p <= brk - 1 && p >= 0
    }

    // check_heap_init (mm.c:557-571): the number of complaints, in any heap
    method CheckHeapInit() returns (problems: int)
      ensures 0 <= problems && (problems == 0 <==> basep != 0 && basep % 8 == 0 && 0 <= basep < brk)
    {
      problems := 0;
      if basep == 0 { problems := problems + 1; }
      if !IsAligned(basep) { problems := problems + 1; }
      if !InHeap(basep) { problems := problems + 1; }
    }

    // check_epi_and_pro (mm.c:576-602)
    method CheckWalls() returns (problems: int)
      requires Mapped() && IsWord(basep - 4) && IsWord(basep) && IsWord(brk - 4)
      ensures 0 <= problems
      ensures problems == 0 <==> Rd(words, basep - 4) == 9 && Rd(words, basep) == 9 && Rd(words, brk - 4) == 1
    {
      problems := 0;
      if Get(basep - 4) != DSIZE + 1 { problems := problems + 1; }
      if Get(basep) != DSIZE + 1 { problems := problems + 1; }
      if Get(brk - 4) != 1 { problems := problems + 1; }
      if !InHeap(basep - 4) { problems := problems + 1; }
      if !InHeap(basep) { problems := problems + 1; }
      if !InHeap(brk - 4) { problems := problems + 1; }
    }

    // The tests of one block in check_each_block (mm.c:616-645), and the header after it
    method CheckBlock(bp: int) returns (free: bool, next: int, problems: int)
      requires Mapped() && Readable(words, brk, bp)
      ensures free == !AllocOf(Rd(words, bp - 4)) && next == bp + SizeAt(words, bp) - 4
      ensures 0 <= problems && (problems == 0 <==> BlockPasses(words, bp))
    {
      problems, free := 0, false;
      if !IsAligned(bp) { problems := problems + 1; }
      if !GetAlloc(bp - 4) { free := true; }
      if Get(bp - 4) != Get(Ftrp(bp)) { problems := problems + 1; }
      if !GetAlloc(bp - 4) && !GetAlloc(NextBlkp(bp) - 4) { problems := problems + 1; }
      next := NextBlkp(bp) - 4;
    }

    // check_each_block (mm.c:607-648): complaints, and the free blocks met walking the heap
    method CheckEachBlock(ghost walk: seq<int>) returns (freeCount: nat, problems: int)
      requires Mapped() && IsWalk(words, brk, walk) && walk[0] == basep + 8
      ensures freeCount == FreeIn(words, walk) && 0 <= problems && (problems == 0 <==> WalkPasses(words, walk))
    {
      var iter := basep + 4;
      freeCount, problems := 0, 0;
      ghost var rest := walk;
      while Get(iter) != 1
        invariant IsWalk(words, brk, rest) && iter == rest[0] - 4
        invariant freeCount + FreeIn(words, rest) == FreeIn(words, walk)
        invariant 0 <= problems
        invariant problems == 0 && WalkPasses(words, rest) <==> WalkPasses(words, walk)
        decreases |rest|
      {
        iter := iter + 4;
        var free, next, p := CheckBlock(iter);
        freeCount, problems := freeCount + (if free then 1 else 0), problems + p;
        iter, rest := next, rest[1..];
      }
    }

    // The tests of one member of a list in check_free_list (mm.c:663-681)
    method CheckNode(k: int, bp: int) returns (problems: int)
      requires Mapped() && 0 <= k < LIST_NUM && IsWord(bp) && IsWord(bp - 4) && IsWord(Rd(words, bp) + 4)
      ensures 0 <= problems && (problems == 0 <==> NodePasses(words, brk, k, bp))
    {
      problems := 0;
      if !InHeap(bp) { problems := problems + 1; }
      var idx := ListIndex(GetSize(bp - 4));
      if idx != k { problems := problems + 1; }
      var next := Get(bp);
      if bp != Get(next + 4) || next != Get(bp) { problems := problems + 1; }
    }

    // The walk of one bucket in check_free_list (mm.c:661-688)
    method CheckBucket(k: int, ghost nodes: seq<int>) returns (count: nat, problems: int)
      requires Mapped() && 0 <= k < LIST_NUM && IsWord(8 * k) && nodes != [] && Rd(words, 8 * k) == nodes[0]
      requires IsChain(words, brk, 8 * k, nodes)
      ensures count == |nodes| - 1 && 0 <= problems && (problems == 0 <==> ChainPasses(words, brk, k, nodes))
    {
      var head := 8 * k;
      var bp := Get(head);
      count, problems := 0, 0;
      ghost var rest := nodes;
      while bp != head
        invariant IsChain(words, brk, head, rest) && bp == rest[0] && count + |rest| == |nodes|
        invariant 0 <= problems
        invariant problems == 0 && ChainPasses(words, brk, k, rest) <==> ChainPasses(words, brk, k, nodes)
        decreases |rest|
      {
        var p := CheckNode(k, bp);
        count, problems := count + 1, problems + p;
        bp, rest := Get(bp), rest[1..];
      }
    }

    // check_free_list (mm.c:653-692)
    method CheckFreeList(ghost chains: seq<seq<int>>) returns (freeCount: int, problems: int)
      requires Mapped() && AreChains(words, brk, 0, chains)
      ensures freeCount == NodesFrom(0, chains)
      ensures 0 <= problems && (problems == 0 <==> ChainsPass(words, brk, 0, chains))
    {
      freeCount, problems := 0, 0;
      for k := 0 to LIST_NUM
        invariant AreChains(words, brk, k, chains) && freeCount + NodesFrom(k, chains) == NodesFrom(0, chains)
        invariant 0 <= problems
        invariant problems == 0 && ChainsPass(words, brk, k, chains) <==> ChainsPass(words, brk, 0, chains)
      {
        var count, p := CheckBucket(k, chains[k]);
        freeCount, problems := freeCount + count, problems + p;
      }
    }

    // mm_checkheap (mm.c:697-714) is silent exactly on the heaps that pass all of its tests.
    method CheckHeap(ghost walk: seq<int>, ghost chains: seq<seq<int>>) returns (problems: int)
      requires Mapped() && Inspectable(words, brk, basep, walk, chains)
      ensures 0 <= problems && (problems == 0 <==> HeapPasses(words, brk, basep, walk, chains))
    {
      problems := CheckHeapInit();
      var p0 := CheckWalls();
      var freeCount1, p1 := CheckEachBlock(walk);
      var freeCount2, p2 := CheckFreeList(chains);
      problems := problems + p0 + p1 + p2;
      if freeCount1 != freeCount2 { problems := problems + 1; }
    }

    // On a heap that is sound it finds nothing to complain about.
    method CheckSound() returns (problems: int)
      requires Valid()
      ensures problems == 0
    {
      ghost var walk, chains := SoundPasses(words, state);
      problems := CheckHeap(walk, chains);
    }
  }
}
