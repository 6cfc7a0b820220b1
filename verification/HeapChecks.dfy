// What mm_checkheap of malloc lab/mm.c looks at in any heap whose walks end, sound or not; and that a sound
// heap passes all of its tests.
module HeapChecks {
  import opened Basics
  import opened HeapModel
  import opened HeapPolicy
  import opened HeapWords

  // A word that has been obtained from mem_sbrk
  predicate At(brk: int, a: int) {
    0 <= a < brk && a % 4 == 0
  }

  function SizeAt(m: Memory, bp: int): int {
    SizeOf(Rd(m, bp - 4))
  }

  // ---------- the walk over all blocks ----------

  // The words that the tests of the block at bp read: its tags and the next header
  predicate Readable(m: Memory, brk: int, bp: int) {
    At(brk, bp - 4) && At(brk, bp + SizeAt(m, bp) - 8) && At(brk, bp + SizeAt(m, bp) - 4)
  }

  // Block pointers from header to header, up to the one behind the epilogue
  ghost predicate IsWalk(m: Memory, brk: int, walk: seq<int>) {
    && walk != [] && At(brk, walk[0] - 4)
    && if |walk| == 1 then Rd(m, walk[0] - 4) == 1
       else
         && Rd(m, walk[0] - 4) != 1 && Readable(m, brk, walk[0])
         && walk[1] == walk[0] + SizeAt(m, walk[0]) && IsWalk(m, brk, walk[1..])
  }

  // Aligned, header equal to footer, and not followed by a free block if free
  ghost predicate BlockPasses(m: Memory, bp: int) {
    && bp % 8 == 0 && Rd(m, bp - 4) == Rd(m, bp + SizeAt(m, bp) - 8)
    && (AllocOf(Rd(m, bp - 4)) || AllocOf(Rd(m, bp + SizeAt(m, bp) - 4)))
  }

  ghost predicate WalkPasses(m: Memory, walk: seq<int>) {
    |walk| <= 1 || (BlockPasses(m, walk[0]) && WalkPasses(m, walk[1..]))
  }

  function FreeIn(m: Memory, walk: seq<int>): nat {
    if |walk| <= 1 then 0 else FreeIn(m, walk[1..]) + if AllocOf(Rd(m, walk[0] - 4)) then 0 else 1
  }

  // ---------- the walk around one list ----------

  ghost predicate IsChain(m: Memory, brk: int, head: int, nodes: seq<int>) {
    && nodes != []
    && if nodes[0] == head then |nodes| == 1
       else
         && |nodes| >= 2 && At(brk, nodes[0]) && At(brk, nodes[0] - 4) && At(brk, nodes[1] + 4)
         && Rd(m, nodes[0]) == nodes[1] && IsChain(m, brk, head, nodes[1..])
  }

  // In the heap, in the list of its size, and the previous of the next
  ghost predicate NodePasses(m: Memory, brk: int, k: int, bp: int) {
    0 <= bp < brk && Bucket(SizeAt(m, bp)) == k && Rd(m, Rd(m, bp) + 4) == bp
  }

  ghost predicate ChainPasses(m: Memory, brk: int, k: int, nodes: seq<int>) {
    |nodes| <= 1 || (NodePasses(m, brk, k, nodes[0]) && ChainPasses(m, brk, k, nodes[1..]))
  }

  // All lists from k on
  ghost predicate AreChains(m: Memory, brk: int, k: int, chains: seq<seq<int>>)
    decreases LIST_NUM - k
  {
    && 0 <= k <= LIST_NUM && |chains| == LIST_NUM
    && (k < LIST_NUM ==>
          && At(brk, 8 * k) && chains[k] != [] && Rd(m, 8 * k) == chains[k][0]
          && IsChain(m, brk, 8 * k, chains[k]) && AreChains(m, brk, k + 1, chains))
  }

  ghost predicate ChainsPass(m: Memory, brk: int, k: int, chains: seq<seq<int>>)
    requires |chains| == LIST_NUM
    decreases LIST_NUM - k
  {
    0 <= k < LIST_NUM ==> ChainPasses(m, brk, k, chains[k]) && ChainsPass(m, brk, k + 1, chains)
  }

  function NodesFrom(k: int, chains: seq<seq<int>>): int
    requires |chains| == LIST_NUM
    decreases LIST_NUM - k
  {
    if 0 <= k < LIST_NUM then |chains[k]| - 1 + NodesFrom(k + 1, chains) else 0
  }

  // ---------- a sound heap passes ----------

  lemma WalkEnds(m: Memory, s: State)
    requires Good(s) && Rep(m, s)
    ensures At(s.top, s.top - 4) && IsWalk(m, s.top, [s.top])
  {
    WallReads(m, s);
  }

  lemma BlockSound(m: Memory, s: State, b: int)
    requires Good(s) && s.loose == {} && Rep(m, s) && b in s.blocks
    ensures SizeAt(m, b) == s.blocks[b].size && AllocOf(Rd(m, b - 4)) == s.blocks[b].alloc
    ensures Readable(m, s.top, b) && BlockPasses(m, b) && Rd(m, b - 4) != 1
  {
    TagBounds(s, b);
    TagReads(m, s, b);
    NextReads(m, s, b);
    assert SeparateAt(s.blocks, s.loose, b);
  }

  lemma {:induction false} WalkSound(m: Memory, s: State, b: int) returns (walk: seq<int>)
    requires Good(s) && s.loose == {} && Rep(m, s) && (b == s.top || b in s.blocks)
    ensures IsWalk(m, s.top, walk) && walk[0] == b && WalkPasses(m, walk)
    ensures FreeIn(m, walk) + |FreeBelow(s.blocks, b)| == |FreeBelow(s.blocks, s.top)|
    decreases s.top - b
  {
    if b == s.top {
      walk := [b];
      WalkEnds(m, s);
    } else {
      TagBounds(s, b);
      BlockSound(m, s, b);
      assert HasNext(s.blocks, s.top, b);
      var rest := WalkSound(m, s, End(s.blocks, b));
      walk := [b] + rest;
      assert walk[1..] == rest;
      FreeBelowStep(s.blocks, s.top, b);
    }
  }

  lemma NodeSound(m: Memory, s: State, k: int, i: int)
    requires Good(s) && Rep(m, s) && 0 <= k < LIST_NUM && 0 <= i < |s.lists[k]|
    ensures var bp := s.lists[k][i];
      && At(s.top, bp) && At(s.top, bp - 4) && At(s.top, Rd(m, bp) + 4) && bp != 8 * k && NodePasses(m, s.top, k, bp)
      && Rd(m, bp) == if i + 1 < |s.lists[k]| then s.lists[k][i + 1] else 8 * k
  {
    WalkReads(m, s, k, i);
    BackReads(m, s, k, i);
    RingStep(m, s, k, i);
  }

  lemma {:induction false} ChainSound(m: Memory, s: State, k: int, i: int) returns (nodes: seq<int>)
    requires Good(s) && Rep(m, s) && 0 <= k < LIST_NUM && 0 <= i <= |s.lists[k]|
    ensures IsChain(m, s.top, 8 * k, nodes) && ChainPasses(m, s.top, k, nodes) && |nodes| == |s.lists[k]| - i + 1
    ensures nodes[0] == if i < |s.lists[k]| then s.lists[k][i] else 8 * k
    decreases |s.lists[k]| - i
  {
    if i == |s.lists[k]| {
      nodes := [8 * k];
    } else {
      NodeSound(m, s, k, i);
      var rest := ChainSound(m, s, k, i + 1);
      nodes := [s.lists[k][i]] + rest;
      assert nodes[1..] == rest;
    }
  }

  // The lists k, k + 1, ... are chains, pass, and have as many members as there are free blocks in them.
  ghost predicate ChainsSound(m: Memory, s: State, k: int, chains: seq<seq<int>>) {
    && |chains| == LIST_NUM && AreChains(m, s.top, k, chains) && ChainsPass(m, s.top, k, chains)
    && |FreeInBuckets(s.blocks, k)| + NodesFrom(k, chains) == |FreeInBuckets(s.blocks, LIST_NUM)|
  }

  lemma {:induction false} ChainsKept(m: Memory, brk: int, k: int, chains: seq<seq<int>>, chains': seq<seq<int>>)
    requires AreChains(m, brk, k, chains) && ChainsPass(m, brk, k, chains) && |chains'| == LIST_NUM
    requires forall j | k <= j < LIST_NUM :: chains'[j] == chains[j]
    ensures AreChains(m, brk, k, chains') && ChainsPass(m, brk, k, chains')
    ensures NodesFrom(k, chains') == NodesFrom(k, chains)
    decreases LIST_NUM - k
  {
    if k == LIST_NUM {
    } else {
      ChainsKept(m, brk, k + 1, chains, chains');
    }
  }

  lemma HeadSound(m: Memory, s: State, k: int)
    requires Good(s) && Rep(m, s) && 0 <= k < LIST_NUM
    ensures At(s.top, 8 * k) && Rd(m, 8 * k) == if s.lists[k] == [] then 8 * k else s.lists[k][0]
  {
    RingStep(m, s, k, 0);
    NodeBounds(s, k, 8 * k);
  }

  lemma {:induction false} ListsSound(m: Memory, s: State, k: int) returns (chains: seq<seq<int>>)
    requires Good(s) && s.loose == {} && Rep(m, s) && 0 <= k <= LIST_NUM
    ensures ChainsSound(m, s, k, chains)
    decreases LIST_NUM - k
  {
    if k == LIST_NUM {
      chains := [[], [], [], [], [], [], [], [], [], []];
    } else {
      var rest := ListsSound(m, s, k + 1);
      var nodes := ChainSound(m, s, k, 0);
      chains := rest[k := nodes];
      ChainsKept(m, s.top, k + 1, rest, chains);
      HeadSound(m, s, k);
      FreeInBucketsStep(s, k);
    }
  }

  // ---------- all tests together ----------

  // The heap can be looked through: prologue and epilogue are words of it, and all walks end.
  ghost predicate Inspectable(m: Memory, brk: int, basep: int, walk: seq<int>, chains: seq<seq<int>>) {
    && At(brk, basep - 4) && At(brk, basep) && At(brk, brk - 4)
    && IsWalk(m, brk, walk) && walk[0] == basep + 8 && AreChains(m, brk, 0, chains)
  }

  // Every test of mm_checkheap (mm.c:557-714)
  ghost predicate HeapPasses(m: Memory, brk: int, basep: int, walk: seq<int>, chains: seq<seq<int>>)
    requires |chains| == LIST_NUM
  {
    && basep != 0 && basep % 8 == 0
    && Rd(m, basep - 4) == 9 && Rd(m, basep) == 9 && Rd(m, brk - 4) == 1
    && WalkPasses(m, walk) && ChainsPass(m, brk, 0, chains) && FreeIn(m, walk) == NodesFrom(0, chains)
  }

  // A sound heap can be looked through and passes.
  lemma SoundPasses(m: Memory, s: State) returns (walk: seq<int>, chains: seq<seq<int>>)
    requires Good(s) && s.loose == {} && Rep(m, s)
    ensures Inspectable(m, s.top, 88, walk, chains) && HeapPasses(m, s.top, 88, walk, chains)
  {
    WallReads(m, s);
    if s.top != FIRST { assert FIRST in s.blocks; }
    walk := WalkSound(m, s, FIRST);
    chains := ListsSound(m, s, 0);
    FreeCounts(s);
  }
}
