// Safety over whole runs of malloc, free and realloc.
module HeapRuns {
  import opened Basics
  import opened HeapModel
  import opened HeapPolicy
  import opened HeapWords

  // Write: the owner of a live block stores w as word i of its payload. Idle: nothing, as for free(NULL).
  // mid is the state between the malloc and the free of realloc.
  datatype Event =
    | Malloc(size: int, r: Option<int>)
    | Free(p: int)
    | Realloc(p: int, size: int, r: Option<int>, mid: State)
    | Write(p: int, i: nat, w: Word)
    | Idle

  // One call, with mem_sbrk free to fail. Only live pointers are freed or written through.
  ghost predicate Step(s: State, e: Event, s': State) {
    Good(s) && s.loose == {} &&
    match e
    case Malloc(size, r) => 0 <= size <= MAX_REQUEST && Malloced(s, size, r, s')
    case Free(p) => p in s.blocks && s.blocks[p].alloc && s' == HeapModel.Free(s, p)
    case Realloc(p, size, r, mid) =>
      && p in s.blocks && s.blocks[p].alloc && 0 <= size <= MAX_REQUEST
      && if size == 0 then r == None && s' == HeapModel.Free(s, p)
         else Malloced(s, size, r, mid) && if r.None? then s' == mid else IsMove(s, mid, s', p)
    case Write(p, i, _) => p in s.blocks && s.blocks[p].alloc && 4 * i < s.blocks[p].size - 8 && s' == s
    case Idle => s' == s
  }

  // The states before, between and after the calls of es, from what mm_init leaves.
  ghost predicate Run(ss: seq<State>, es: seq<Event>) {
    && |ss| == |es| + 1
    && (ss[0] == Empty() || ss[0] == Extend(EmptyOk(), 4096))
    && forall i {:trigger StepAt(ss, es, i)} | 0 <= i < |es| :: StepAt(ss, es, i)
  }

  ghost predicate StepAt(ss: seq<State>, es: seq<Event>, i: int)
    requires 0 <= i < |es| && |ss| == |es| + 1
  {
    Step(ss[i], es[i], ss[i + 1])
  }

  ghost function EmptyOk(): (s: State)
    ensures s == Empty() && Good(s) && s.loose == {}
  {
    EmptyGood();
    Empty()
  }

  // The caller's own account: what was returned and not yet freed, with the size asked for.
  function Owed(es: seq<Event>): map<int, int> {
    if es == [] then map[] else Account(Owed(es[..|es| - 1]), es[|es| - 1])
  }

  function Account(o: map<int, int>, e: Event): map<int, int> {
    match e
    case Malloc(size, r) => if r.Some? then o[r.value := size] else o
    case Free(p) => o - {p}
    case Realloc(p, size, r, _) => if size == 0 then o - {p} else if r.Some? then o[r.value := size] - {p} else o
    case Write(_, _, _) => o
    case Idle => o
  }

  // The heap agrees with the caller's account.
  ghost predicate Honours(s: State, o: map<int, int>) {
    && Live(s.blocks).Keys == o.Keys
    && forall p | p in o :: o[p] + 8 <= Live(s.blocks)[p].size
  }

  lemma MallocHonours(s: State, size: int, r: Option<int>, s': State, o: map<int, int>)
    requires Good(s) && s.loose == {} && 0 <= size <= MAX_REQUEST && Malloced(s, size, r, s') && Honours(s, o)
    ensures Good(s') && s'.loose == {} && Honours(s', Account(o, Malloc(size, r))) && (r.Some? ==> r.value !in o)
  {
    MallocLive(s, size, r, s');
  }

  lemma FreeHonours(s: State, p: int, o: map<int, int>)
    requires Good(s) && s.loose == {} && p in s.blocks && s.blocks[p].alloc && Honours(s, o)
    ensures var s' := HeapModel.Free(s, p); Good(s') && s'.loose == {} && Honours(s', o - {p})
  {
    FreeLive(s, p);
    var s' := HeapModel.Free(s, p);
    assert Live(s'.blocks).Keys == Live(s.blocks).Keys - {p};
  }

  lemma StepHonours(s: State, e: Event, s': State, o: map<int, int>)
    requires Step(s, e, s') && Honours(s, o)
    ensures Good(s') && s'.loose == {} && Honours(s', Account(o, e))
    ensures (e.Malloc? || e.Realloc?) && e.r.Some? ==> e.r.value !in o
  {
    match e
    case Malloc(size, r) => MallocHonours(s, size, r, s', o);
    case Free(p) => FreeHonours(s, p, o);
    case Realloc(p, size, r, mid) =>
      if size == 0 {
        FreeHonours(s, p, o);
      } else {
        MallocHonours(s, size, r, mid, o);
        if r.Some? { FreeHonours(mid, p, o[r.value := size]); }
      }
    case Write(_, _, _) =>
    case Idle =>
  }

  // In every reachable state the invariant holds and exactly the blocks owed are live, each big enough.
  lemma {:induction false} RunHonours(ss: seq<State>, es: seq<Event>)
    requires Run(ss, es)
    ensures var s := ss[|es|]; Good(s) && s.loose == {} && Honours(s, Owed(es))
  {
    var n := |es|;
    if n == 0 {
      ExtendBlock(EmptyOk(), 4096);
      ExtendLive(EmptyOk(), 4096);
      EmptyGood();
    } else {
      RunPrefix(ss, es);
      RunHonours(ss[..n], es[..n - 1]);
      assert StepAt(ss, es, n - 1);
      StepHonours(ss[n - 1], es[n - 1], ss[n], Owed(es[..n - 1]));
    }
  }

  lemma RunPrefix(ss: seq<State>, es: seq<Event>)
    requires Run(ss, es) && es != []
    ensures Run(ss[..|es|], es[..|es| - 1])
  {
    var ss', es' := ss[..|es|], es[..|es| - 1];
    forall i | 0 <= i < |es'| ensures StepAt(ss', es', i) { assert StepAt(ss, es, i); }
  }

  // Pointers are 8-aligned, payloads lie in the heap and are as long as was asked for, and no two overlap.
  lemma PayloadsSafe(ss: seq<State>, es: seq<Event>, p: int, q: int)
    requires Run(ss, es) && p in Owed(es) && q in Owed(es)
    ensures var s := ss[|es|];
      && p in s.blocks && p % 8 == 0 && FIRST <= p && p + Owed(es)[p] <= End(s.blocks, p) - 8 <= s.top - 8
      && (p < q ==> p + Owed(es)[p] <= q - 8)
  {
    RunHonours(ss, es);
    var s := ss[|es|];
    assert p in Live(s.blocks) && q in Live(s.blocks);
    assert AlignedAt(s.blocks, p);
  }

  // A fresh pointer is none of those still owed.
  lemma FreshPointer(ss: seq<State>, es: seq<Event>)
    requires Run(ss, es) && es != []
    requires var e := es[|es| - 1]; (e.Malloc? || e.Realloc?) && e.r.Some?
    ensures es[|es| - 1].r.value !in Owed(es[..|es| - 1])
  {
    RunPrefix(ss, es);
    RunHonours(ss[..|es|], es[..|es| - 1]);
    assert StepAt(ss, es, |es| - 1);
    StepHonours(ss[|es| - 1], es[|es| - 1], ss[|es|], Owed(es[..|es| - 1]));
  }

  // ---------- conservation ----------

  // ks lists the blocks, each once, in any order.
  ghost predicate Enumerates(ks: seq<int>, bs: Blocks) {
    Distinct(ks) && (forall i | 0 <= i < |ks| :: ks[i] in bs) && forall b | b in bs :: b in ks
  }

  function TotalSize(bs: Blocks, ks: seq<int>): int
    requires forall i | 0 <= i < |ks| :: ks[i] in bs
  {
    if ks == [] then 0 else bs[ks[0]].size + TotalSize(bs, ks[1..])
  }

  lemma {:induction false} TotalWithout(bs: Blocks, ks: seq<int>, p: int)
    requires Distinct(ks) && p in ks && forall i | 0 <= i < |ks| :: ks[i] in bs
    ensures forall i | 0 <= i < |Without(ks, p)| :: Without(ks, p)[i] in bs - {p}
    ensures TotalSize(bs, ks) == bs[p].size + TotalSize(bs - {p}, Without(ks, p))
  {
    WithoutSpec(ks, p);
    assert forall i | 0 <= i < |Without(ks, p)| :: Without(ks, p)[i] in Without(ks, p);
    if ks[0] == p {
      TotalSame(bs, bs - {p}, ks[1..]);
    } else {
      TotalWithout(bs, ks[1..], p);
      assert Without(ks, p) == [ks[0]] + Without(ks[1..], p);
      assert Without(ks, p)[1..] == Without(ks[1..], p);
    }
  }

  lemma {:induction false} TotalSame(bs: Blocks, bs': Blocks, ks: seq<int>)
    requires forall i | 0 <= i < |ks| :: ks[i] in bs && ks[i] in bs' && bs[ks[i]] == bs'[ks[i]]
    ensures TotalSize(bs, ks) == TotalSize(bs', ks)
  {
    if ks == [] {
    } else {
      TotalSame(bs, bs', ks[1..]);
    }
  }

  // The topmost block can be taken away.
  lemma PopTiled(bs: Blocks, top: int)
    requires Tiled(bs, top) && top != FIRST
    ensures Tiled(bs - {PredOf(bs, top)}, PredOf(bs, top))
  {
    var p := PredOf(bs, top);
    var bs' := bs - {p};
    forall c | c in bs' ensures End(bs', c) <= p { assert c < p || p < c; }
    forall c | c in bs' ensures HasNext(bs', p, c) { assert HasNext(bs, top, c); }
    forall c | HasPred(bs, c) && c != top ensures HasPred(bs', c) { PredKept(bs, bs', c); }
  }

  lemma {:induction false} TiledTotal(bs: Blocks, top: int, ks: seq<int>)
    requires Tiled(bs, top) && Enumerates(ks, bs)
    ensures TotalSize(bs, ks) == top - FIRST
    decreases top
  {
    if top == FIRST {
    } else {
      var p := PredOf(bs, top);
      PopTiled(bs, top);
      TotalWithout(bs, ks, p);
      WithoutSpec(ks, p);
      TiledTotal(bs - {p}, p, Without(ks, p));
    }
  }

  // No byte obtained from mem_sbrk is lost: the blocks add up to all but the preamble.
  lemma RunConserves(ss: seq<State>, es: seq<Event>, ks: seq<int>)
    requires Run(ss, es) && Enumerates(ks, ss[|es|].blocks)
    ensures TotalSize(ss[|es|].blocks, ks) == ss[|es|].top - FIRST
  {
    RunHonours(ss, es);
    TiledTotal(ss[|es|].blocks, ss[|es|].top, ks);
  }

  // ---------- freeing everything ----------

  lemma AllFreeIsOne(s: State)
    requires Good(s) && s.loose == {} && Live(s.blocks) == map[] && s.top != FIRST
    ensures s.blocks == map[FIRST := Block(s.top - FIRST, false)]
  {
    var bs := s.blocks;
    forall b | b in bs ensures !bs[b].alloc { assert b !in Live(bs); }
    assert SeparateAt(bs, s.loose, FIRST) && HasNext(bs, s.top, FIRST);
    assert End(bs, FIRST) == s.top;
    forall b | b in bs ensures b == FIRST {}
  }

  lemma StepTop(s: State, e: Event, s': State)
    requires Step(s, e, s')
    ensures s.top <= s'.top
  {
    match e
    case Malloc(size, r) => MallocTop(s, size, r, s');
    case Free(p) => FreeLive(s, p);
    case Realloc(p, size, r, mid) =>
      if size == 0 {
        FreeLive(s, p);
      } else {
        MallocTop(s, size, r, mid);
        if r.Some? { FreeLive(mid, p); }
      }
    case Write(_, _, _) =>
    case Idle =>
  }

  // The heap never shrinks.
  lemma {:induction false} RunTop(ss: seq<State>, es: seq<Event>)
    requires Run(ss, es)
    ensures ss[0].top <= ss[|es|].top
  {
    var n := |es|;
    if n == 0 {
    } else {
      RunPrefix(ss, es);
      RunTop(ss[..n], es[..n - 1]);
      assert StepAt(ss, es, n - 1);
      StepTop(ss[n - 1], es[n - 1], ss[n]);
    }
  }

  lemma NoneLeft(s: State)
    requires Good(s) && s.top == FIRST
    ensures s.blocks == map[]
  {
    assert forall b :: b !in s.blocks;
  }

  // After a successful mm_init there is always a block.
  lemma RunNotEmpty(ss: seq<State>, es: seq<Event>)
    requires Run(ss, es) && ss[0] == Extend(EmptyOk(), 4096)
    ensures FIRST + 4096 <= ss[|es|].top
  {
    RunTop(ss, es);
    ExtendBlock(EmptyOk(), 4096);
  }

  // Whatever was allocated, and in whatever order it was freed, one free block remains; only a heap that
  // mm_init could not extend and that has not grown since has none.
  lemma FreeAllLeavesOne(ss: seq<State>, es: seq<Event>)
    requires Run(ss, es) && Owed(es) == map[]
    ensures var s := ss[|es|]; s.blocks == if s.top == FIRST then map[] else map[FIRST := Block(s.top - FIRST, false)]
    ensures ss[0] == Extend(EmptyOk(), 4096) ==> ss[|es|].top != FIRST
  {
    var s := ss[|es|];
    RunHonours(ss, es);
    assert Live(s.blocks).Keys == {};
    if s.top == FIRST { NoneLeft(s); } else { AllFreeIsOne(s); }
    if ss[0] == Extend(EmptyOk(), 4096) { RunNotEmpty(ss, es); }
  }

  // ---------- contents over runs ----------

  // What the methods of Allocator.Heap and the owners of payloads do to the words.
  ghost predicate MemoryStep(m: Memory, s: State, e: Event, m': Memory, s': State) {
    Step(s, e, s') &&
    match e
    case Malloc(_, _) => Kept(m, m', s.blocks)
    case Free(_) => Kept(m, m', s'.blocks)
    case Realloc(p, size, r, _) =>
      && Kept(m, m', if size == 0 then s'.blocks else if r.None? then s.blocks else s.blocks - {p})
      && (r.Some? ==> Copied(m, p, m', r.value, Min(size, s.blocks[p].size - 8)))
    case Write(p, i, w) => m' == m[p + 4 * i := w]
    case Idle => m' == m
  }

  ghost predicate MemoryStepAt(ms: seq<Memory>, ss: seq<State>, es: seq<Event>, i: int)
    requires 0 <= i < |es| && |ss| == |ms| == |es| + 1
  {
    MemoryStep(ms[i], ss[i], es[i], ms[i + 1], ss[i + 1])
  }

  ghost predicate MemoryRun(ms: seq<Memory>, ss: seq<State>, es: seq<Event>) {
    && |ss| == |ms| == |es| + 1
    && forall i {:trigger MemoryStepAt(ms, ss, es, i)} | 0 <= i < |es| :: MemoryStepAt(ms, ss, es, i)
  }

  // The calls and writes through p itself
  predicate Touches(e: Event, p: int) {
    (e.Free? || e.Realloc? || e.Write?) && e.p == p
  }

  // One call or write leaves the payload of any other live block as it is.
  lemma StepKeepsPayload(m: Memory, s: State, e: Event, m': Memory, s': State, p: int)
    requires MemoryStep(m, s, e, m', s') && p in Live(s.blocks) && !Touches(e, p)
    ensures p in Live(s'.blocks) && s'.blocks[p] == s.blocks[p] && Same(m, m', p, End(s.blocks, p) - 8)
  {
    match e
    case Malloc(size, r) =>
      MallocKeepsLive(s, size, r, s', p);
      KeptAt(m, m', s.blocks, p);
    case Free(q) =>
      FreeKeepsLive(s, q, p);
      KeptAt(m, m', s'.blocks, p);
    case Realloc(q, size, r, mid) => ReallocKeepsPayload(m, s, e, m', s', p);
    case Write(q, i, w) => WriteKeepsPayload(m, s, q, i, w, p);
    case Idle =>
  }

  lemma LiveIsBlock(bs: Blocks, bs': Blocks, p: int)
    requires p in Live(bs) && p in Live(bs') && Live(bs')[p] == Live(bs)[p]
    ensures bs'[p] == bs[p]
  {
  }

  lemma MallocKeepsLive(s: State, size: int, r: Option<int>, s': State, p: int)
    requires Good(s) && s.loose == {} && 0 <= size <= MAX_REQUEST && Malloced(s, size, r, s') && p in Live(s.blocks)
    ensures p in Live(s'.blocks) && s'.blocks[p] == s.blocks[p]
  {
    MallocLive(s, size, r, s');
    LiveIsBlock(s.blocks, s'.blocks, p);
  }

  lemma FreeKeepsLive(s: State, q: int, p: int)
    requires Good(s) && s.loose == {} && q in s.blocks && s.blocks[q].alloc && p in Live(s.blocks) && p != q
    ensures var s' := HeapModel.Free(s, q); p in Live(s'.blocks) && s'.blocks[p] == s.blocks[p]
  {
    FreeLive(s, q);
    LiveIsBlock(s.blocks, HeapModel.Free(s, q).blocks, p);
  }

  lemma WriteKeepsPayload(m: Memory, s: State, q: int, i: nat, w: Word, p: int)
    requires Good(s) && q in s.blocks && 4 * i < s.blocks[q].size - 8 && p in s.blocks && p != q
    ensures Same(m, m[q + 4 * i := w], p, End(s.blocks, p) - 8)
  {
    BlocksApart(s, p, q);
  }

  lemma KeptAt(m: Memory, m': Memory, bs: Blocks, p: int)
    requires Kept(m, m', bs) && p in Live(bs)
    ensures Same(m, m', p, End(bs, p) - 8)
  {
    assert bs[p].alloc;
  }

  lemma ReallocKeepsLive(s: State, e: Event, s': State, p: int)
    requires Step(s, e, s') && e.Realloc? && p in Live(s.blocks) && e.p != p
    ensures p in Live(s'.blocks) && s'.blocks[p] == s.blocks[p]
  {
    if e.size == 0 {
      FreeKeepsLive(s, e.p, p);
    } else {
      MallocKeepsLive(s, e.size, e.r, e.mid, p);
      if e.r.Some? { FreeKeepsLive(e.mid, e.p, p); }
    }
  }

  lemma ReallocKeepsPayload(m: Memory, s: State, e: Event, m': Memory, s': State, p: int)
    requires MemoryStep(m, s, e, m', s') && e.Realloc? && p in Live(s.blocks) && e.p != p
    ensures p in Live(s'.blocks) && s'.blocks[p] == s.blocks[p] && Same(m, m', p, End(s.blocks, p) - 8)
  {
    ReallocKeepsLive(s, e, s', p);
    if e.size == 0 {
      KeptAt(m, m', s'.blocks, p);
    } else if e.r.None? {
      KeptAt(m, m', s.blocks, p);
    } else {
      KeptAt(m, m', s.blocks - {e.p}, p);
    }
  }

  // Freeing or reallocating p, or storing into word j of its payload
  predicate Overwrites(e: Event, p: int, j: nat) {
    Touches(e, p) && (e.Write? ==> e.i == j)
  }

  // Word j of the live block p is w.
  ghost predicate HasWord(m: Memory, s: State, p: int, j: nat, w: Word) {
    p in Live(s.blocks) && 4 * j < s.blocks[p].size - 8 && Rd(m, p + 4 * j) == w
  }

  lemma StepKeepsWord(m: Memory, s: State, e: Event, m': Memory, s': State, p: int, j: nat, w: Word)
    requires MemoryStep(m, s, e, m', s') && HasWord(m, s, p, j, w) && !Overwrites(e, p, j)
    ensures HasWord(m', s', p, j, w)
  {
    if !Touches(e, p) { StepKeepsPayload(m, s, e, m', s', p); }
  }

  // What was written is read, until the word is written again or the block is freed or reallocated.
  lemma {:induction false} WrittenIsRead(ms: seq<Memory>, ss: seq<State>, es: seq<Event>, i: nat, k: nat)
    requires MemoryRun(ms, ss, es) && i < k <= |es| && es[i].Write?
    requires forall n | i < n < k :: !Overwrites(es[n], es[i].p, es[i].i)
    ensures HasWord(ms[k], ss[k], es[i].p, es[i].i, es[i].w)
    decreases k
  {
    assert MemoryStepAt(ms, ss, es, k - 1);
    if k == i + 1 {
    } else {
      WrittenIsRead(ms, ss, es, i, k - 1);
      StepKeepsWord(ms[k - 1], ss[k - 1], es[k - 1], ms[k], ss[k], es[i].p, es[i].i, es[i].w);
    }
  }

  // From any point of a run to any later one, a payload changes only by its owner's writes.
  lemma {:induction false} RunKeepsPayload(ms: seq<Memory>, ss: seq<State>, es: seq<Event>, i: int, j: int, p: int)
    requires MemoryRun(ms, ss, es) && 0 <= i <= j <= |es| && p in Live(ss[i].blocks)
    requires forall k | i <= k < j :: !Touches(es[k], p)
    ensures p in Live(ss[j].blocks) && ss[j].blocks[p] == ss[i].blocks[p]
    ensures Same(ms[i], ms[j], p, End(ss[i].blocks, p) - 8)
    decreases j - i
  {
    if i == j {
    } else {
      RunKeepsPayload(ms, ss, es, i, j - 1, p);
      assert MemoryStepAt(ms, ss, es, j - 1);
      StepKeepsPayload(ms[j - 1], ss[j - 1], es[j - 1], ms[j], ss[j], p);
    }
  }
}
