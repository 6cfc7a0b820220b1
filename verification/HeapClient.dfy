// A client of the allocator that makes any sequence of calls and writes. What the
// program then does is a run in the sense of HeapRuns, so its theorems hold of it.
module HeapClient {
  import opened Basics
  import opened HeapModel
  import opened HeapPolicy
  import opened HeapWords
  import opened HeapRuns
  import opened Allocator

  datatype Request =
    | AskMalloc(size: int)
    | AskFree(ptr: Option<int>)
    | AskRealloc(ptr: Option<int>, size: int)
    | AskWrite(p: int, i: nat, w: Word)

  // What a request makes of the run. Pointers that are not owed are neither passed nor written through,
  // and neither are requests over MAX_REQUEST.
  ghost predicate Answers(e: Event, q: Request, owed: map<int, int>) {
    match q
    case AskMalloc(size) => if 0 <= size <= MAX_REQUEST then e.Malloc? && e.size == size else e.Idle?
    case AskFree(ptr) => if ptr.Some? && ptr.value in owed then e == Event.Free(ptr.value) else e.Idle?
    case AskRealloc(ptr, size) =>
      if !(0 <= size <= MAX_REQUEST) then e.Idle?
      else if ptr.None? then e.Malloc? && e.size == size
      else if ptr.value in owed then e.Realloc? && e.p == ptr.value && e.size == size
      else e.Idle?
    case AskWrite(p, i, w) => if p in owed && 4 * i < owed[p] then e == Event.Write(p, i, w) else e.Idle?
  }

  // mem_sbrk has been called from a to b and has refused.
  ghost predicate Refused(a: seq<SbrkCall>, b: seq<SbrkCall>) {
    a <= b && exists i :: |a| <= i < |b| && !b[i].granted
  }

  // NULL for a request of some bytes
  predicate Denied(e: Event) {
    (e.Malloc? || e.Realloc?) && e.size > 0 && e.r.None?
  }

  // One step of the program on its words and states; it is denied memory exactly if mem_sbrk refuses some.
  twostate predicate Stepped(h: Heap, e: Event)
    reads h, h.mem
  {
    h.Valid() && MemoryStep(old(h.words), old(h.state), e, h.words, h.state)
    && old(h.asked) <= h.asked && (Denied(e) <==> Refused(old(h.asked), h.asked))
  }

  lemma AskedOnce(a: seq<SbrkCall>, b: seq<SbrkCall>, s: State, size: int, r: Option<int>, s': State)
    requires Good(s) && s.loose == {} && 0 <= size <= MAX_REQUEST && Malloced(s, size, r, s')
    requires b == a + Heap.AsksFor(s, size, r.Some?)
    ensures a <= b && (size > 0 && r.None? <==> Refused(a, b))
  {
    var calls := Heap.AsksFor(s, size, r.Some?);
    assert forall i | |a| <= i < |b| :: b[i] == calls[i - |a|];
    if size > 0 && r.None? {
      AdjustExact(size);
      assert !b[|a|].granted;
    }
  }

  lemma NotAsked(a: seq<SbrkCall>)
    ensures a <= a && !Refused(a, a)
  {
  }

  method DoMalloc(h: Heap, size: int) returns (r: Option<int>, ghost e: Event)
    requires h.Valid() && 0 <= size <= MAX_REQUEST
    modifies h, h.mem
    ensures Stepped(h, e) && e == Event.Malloc(size, r)
  {
    ghost var a, s := h.asked, h.state;
    r := h.Malloc(size);
    e := Event.Malloc(size, r);
    AskedOnce(a, h.asked, s, size, r, h.state);
  }

  method DoFree(h: Heap, p: int) returns (ghost e: Event)
    requires h.Valid() && p in h.state.blocks && h.state.blocks[p].alloc
    modifies h, h.mem
    ensures Stepped(h, e) && e == Event.Free(p)
  {
    h.Free(Some(p));
    e := Event.Free(p);
  }

  // The contract of Heap.Realloc is a step.
  lemma ReallocIsStep(m: Memory, s: State, p: int, size: int, r: Option<int>, mid: State, m': Memory, s': State)
    requires Good(s) && s.loose == {} && p in s.blocks && s.blocks[p].alloc && 0 <= size <= MAX_REQUEST
    requires size == 0 ==> r == None && s' == HeapModel.Free(s, p) && Kept(m, m', s'.blocks)
    requires size > 0 ==> Malloced(s, size, r, mid)
    requires size > 0 && r.None? ==> s' == mid && Kept(m, m', s.blocks)
    requires size > 0 && r.Some? ==>
      && IsMove(s, mid, s', p) && Kept(m, m', s.blocks - {p})
      && Copied(m, p, m', r.value, Min(size, s.blocks[p].size - 8))
    ensures MemoryStep(m, s, Event.Realloc(p, size, r, mid), m', s')
  {
  }

  method DoRealloc(h: Heap, p: int, size: int) returns (r: Option<int>, ghost e: Event)
    requires h.Valid() && p in h.state.blocks && h.state.blocks[p].alloc && 0 <= size <= MAX_REQUEST
    modifies h, h.mem
    ensures Stepped(h, e) && e.Realloc? && e.p == p && e.size == size && e.r == r
  {
    ghost var m, s := h.words, h.state;
    ghost var mid;
    ghost var a := h.asked;
    r, mid := h.Realloc(Some(p), size);
    e := Event.Realloc(p, size, r, mid);
    if size > 0 { AskedOnce(a, h.asked, s, size, r, mid); }
    ReallocIsStep(m, s, p, size, r, mid, h.words, h.state);
  }

  lemma WholeWords(i: nat, size: int)
    requires 4 * i < size - 8 && size % 8 == 0
    ensures 4 * i + 12 <= size
  {
  }

  lemma WriteIsStep(m: Memory, s: State, p: int, i: nat, w: Word)
    requires Good(s) && s.loose == {} && Rep(m, s) && p in s.blocks && s.blocks[p].alloc && 4 * i < s.blocks[p].size - 8
    ensures Rep(m[p + 4 * i := w], s) && MemoryStep(m, s, Event.Write(p, i, w), m[p + 4 * i := w], s)
  {
    TagBounds(s, p);
    WholeWords(i, s.blocks[p].size);
    PayloadWrite(m, m[p + 4 * i := w], s, p);
  }

  // The owner of p stores a word into its payload.
  method DoWrite(h: Heap, p: int, i: nat, w: Word) returns (ghost e: Event)
    requires h.Valid() && p in h.state.blocks && h.state.blocks[p].alloc && 4 * i < h.state.blocks[p].size - 8
    modifies h, h.mem
    ensures Stepped(h, e) && e == Event.Write(p, i, w)
  {
    TagBounds(h.state, p);
    WriteIsStep(h.words, h.state, p, i, w);
    NotAsked(h.asked);
    e := Event.Write(p, i, w);
    h.Put(p + 4 * i, w);
  }

  // A pointer owed is live, with room for what was asked for.
  lemma OwedIsLive(s: State, owed: map<int, int>, p: int)
    requires Honours(s, owed) && p in owed
    ensures p in s.blocks && s.blocks[p].alloc && owed[p] + 8 <= s.blocks[p].size
  {
    assert p in Live(s.blocks).Keys;
  }

  // One request; owed is the client's account
  method ServeOne(h: Heap, q: Request, owed: map<int, int>) returns (owed': map<int, int>, ghost e: Event)
    requires h.Valid() && Honours(h.state, owed)
    modifies h, h.mem
    ensures Stepped(h, e) && Answers(e, q, owed) && owed' == Account(owed, e)
  {
    owed', e := owed, Event.Idle;
    match q {
      case AskMalloc(size) =>
        if 0 <= size <= MAX_REQUEST {
          owed', e := ServeMalloc(h, size, owed);
        }
      case AskFree(None) =>
        h.Free(None);
      case AskFree(Some(p)) =>
        if p in owed {
          OwedIsLive(h.state, owed, p);
          e := DoFree(h, p);
          owed' := owed - {p};
        }
      case AskRealloc(None, size) =>
        if 0 <= size <= MAX_REQUEST {
          owed', e := ServeReallocNull(h, size, owed);
        }
      case AskRealloc(Some(p), size) =>
        if p in owed && 0 <= size <= MAX_REQUEST {
          owed', e := ServeRealloc(h, p, size, owed);
        }
      case AskWrite(p, i, w) =>
        if p in owed && 4 * i < owed[p] {
          OwedIsLive(h.state, owed, p);
          e := DoWrite(h, p, i, w);
        }
    }
  }

  method ServeMalloc(h: Heap, size: int, owed: map<int, int>) returns (owed': map<int, int>, ghost e: Event)
    requires h.Valid() && 0 <= size <= MAX_REQUEST
    modifies h, h.mem
    ensures Stepped(h, e) && e.Malloc? && e.size == size && owed' == Account(owed, e)
  {
    var r;
    r, e := DoMalloc(h, size);
    owed' := if r.Some? then owed[r.value := size] else owed;
  }

  // realloc(NULL, size) is malloc(size), and free(NULL) for size 0.
  method ServeReallocNull(h: Heap, size: int, owed: map<int, int>) returns (owed': map<int, int>, ghost e: Event)
    requires h.Valid() && 0 <= size <= MAX_REQUEST
    modifies h, h.mem
    ensures Stepped(h, e) && e.Malloc? && e.size == size && owed' == Account(owed, e)
  {
    ghost var mid;
    var r;
    ghost var a, s := h.asked, h.state;
    r, mid := h.Realloc(None, size);
    e := Event.Malloc(size, r);
    AskedOnce(a, h.asked, s, size, r, mid);
    owed' := if r.Some? then owed[r.value := size] else owed;
  }

  method ServeRealloc(h: Heap, p: int, size: int, owed: map<int, int>) returns (owed': map<int, int>, ghost e: Event)
    requires h.Valid() && Honours(h.state, owed) && p in owed && 0 <= size <= MAX_REQUEST
    modifies h, h.mem
    ensures Stepped(h, e) && e.Realloc? && e.p == p && e.size == size && owed' == Account(owed, e)
  {
    OwedIsLive(h.state, owed, p);
    var r;
    r, e := DoRealloc(h, p, size);
    owed' := if size == 0 then owed - {p} else if r.Some? then owed[r.value := size] - {p} else owed;
  }

  // ---------- runs grow by steps ----------

  ghost predicate AnswersAt(es: seq<Event>, reqs: seq<Request>, i: int)
    requires 0 <= i < |es| <= |reqs|
  {
    Answers(es[i], reqs[i], Owed(es[..i]))
  }

  // The events are those that the first requests call for.
  ghost predicate Answered(es: seq<Event>, reqs: seq<Request>) {
    |es| <= |reqs| && forall i {:trigger AnswersAt(es, reqs, i)} | 0 <= i < |es| :: AnswersAt(es, reqs, i)
  }

  lemma AnsweredGrows(es: seq<Event>, reqs: seq<Request>, e: Event)
    requires Answered(es, reqs) && |es| < |reqs| && Answers(e, reqs[|es|], Owed(es))
    ensures Answered(es + [e], reqs) && Owed(es + [e]) == Account(Owed(es), e)
  {
    var es' := es + [e];
    assert es'[..|es|] == es;
    forall i | 0 <= i < |es'| ensures AnswersAt(es', reqs, i) {
      if i < |es| { assert AnswersAt(es, reqs, i) && es'[..i] == es[..i]; }
    }
  }

  lemma RunGrows(ss: seq<State>, es: seq<Event>, e: Event, s: State)
    requires Run(ss, es) && Step(ss[|es|], e, s)
    ensures Run(ss + [s], es + [e])
  {
    forall i | 0 <= i < |es| + 1 ensures StepAt(ss + [s], es + [e], i) {
      if i < |es| { assert StepAt(ss, es, i); }
    }
  }

  lemma MemoryRunGrows(ms: seq<Memory>, ss: seq<State>, es: seq<Event>, m: Memory, e: Event, s: State)
    requires MemoryRun(ms, ss, es) && MemoryStep(ms[|es|], ss[|es|], e, m, s)
    ensures MemoryRun(ms + [m], ss + [s], es + [e])
  {
    forall i | 0 <= i < |es| + 1 ensures MemoryStepAt(ms + [m], ss + [s], es + [e], i) {
      if i < |es| { assert MemoryStepAt(ms, ss, es, i); }
    }
  }

  // The words and states between the steps so far, and the steps
  datatype Log = Log(ms: seq<Memory>, ss: seq<State>, es: seq<Event>)

  // The log is a run from a successful mm_init to words m and state s, and answers the first requests.
  ghost predicate Logged(log: Log, reqs: seq<Request>, m: Memory, s: State) {
    && Run(log.ss, log.es) && MemoryRun(log.ms, log.ss, log.es) && Answered(log.es, reqs)
    && log.ss[0] == Extend(EmptyOk(), 4096) && log.ss[|log.es|] == s && log.ms[|log.es|] == m
  }

  lemma LogStarts(reqs: seq<Request>, m: Memory, s: State)
    requires s == Extend(EmptyOk(), 4096)
    ensures Logged(Log([m], [s], []), reqs, m, s)
  {
  }

  function Logging(log: Log, m: Memory, s: State, e: Event): Log {
    Log(log.ms + [m], log.ss + [s], log.es + [e])
  }

  lemma LogGrows(log: Log, reqs: seq<Request>, m: Memory, s: State, e: Event, m': Memory, s': State)
    requires Logged(log, reqs, m, s) && MemoryStep(m, s, e, m', s')
    requires |log.es| < |reqs| && Answers(e, reqs[|log.es|], Owed(log.es))
    ensures Logged(Logging(log, m', s', e), reqs, m', s')
    ensures Owed(log.es + [e]) == Account(Owed(log.es), e)
  {
    AnsweredGrows(log.es, reqs, e);
    RunGrows(log.ss, log.es, e, s');
    MemoryRunGrows(log.ms, log.ss, log.es, m', e, s');
  }

  // Some request was denied.
  ghost predicate AnyDenied(es: seq<Event>) {
    exists i :: 0 <= i < |es| && Denied(es[i])
  }

  lemma DeniedGrows(a: seq<SbrkCall>, b: seq<SbrkCall>, c: seq<SbrkCall>, es: seq<Event>, e: Event)
    requires a <= b <= c && (AnyDenied(es) <==> Refused(a, b)) && (Denied(e) <==> Refused(b, c))
    ensures a <= c && (AnyDenied(es + [e]) <==> Refused(a, c))
  {
    var es' := es + [e];
    if AnyDenied(es) {
      var i :| 0 <= i < |es| && Denied(es[i]);
      assert Denied(es'[i]);
    }
    if Denied(e) { assert Denied(es'[|es|]); }
    assert forall i | 0 <= i < |es'| :: es'[i] == if i < |es| then es[i] else e;
    assert forall i | 0 <= i < |b| :: c[i] == b[i];
  }

  method ServeNext(h: Heap, reqs: seq<Request>, n: nat, owed: map<int, int>, ghost log: Log, ghost start: seq<SbrkCall>)
    returns (owed': map<int, int>, ghost log': Log)
    requires h.Valid() && Logged(log, reqs, h.words, h.state) && n == |log.es| < |reqs| && owed == Owed(log.es)
    requires start <= h.asked && (AnyDenied(log.es) <==> Refused(start, h.asked))
    modifies h, h.mem
    ensures h.Valid() && |log'.es| == n + 1 && owed' == Owed(log'.es)
    ensures Logged(log', reqs, h.words, h.state)
    ensures start <= h.asked && (AnyDenied(log'.es) <==> Refused(start, h.asked))
  {
    RunHonours(log.ss, log.es);
    ghost var m, s, a := h.words, h.state, h.asked;
    ghost var e;
    owed', e := ServeOne(h, reqs[n], owed);
    LogGrows(log, reqs, m, s, e, h.words, h.state);
    DeniedGrows(start, a, h.asked, log.es, e);
    log' := Logging(log, h.words, h.state, e);
  }

  // mm_init and then any requests at all: if mm_init succeeds, what the program does is a run, and
  // the blocks live in the end are those the client has been given and not given back. mm_init fails or a
  // request of some bytes is answered by NULL exactly if mem_sbrk has refused memory.
  method Replay(h: Heap, reqs: seq<Request>) returns (ok: bool, owed: map<int, int>, ghost log: Log)
    requires h.Mapped() && h.brk == 0
    modifies h, h.mem
    ensures ok ==> h.Valid() && |log.es| == |reqs| && owed == Owed(log.es) && Honours(h.state, owed)
    ensures ok ==> Logged(log, reqs, h.words, h.state)
    ensures !ok || AnyDenied(log.es) <==> Refused(old(h.asked), h.asked)
  {
    ghost var before := h.asked;
    ok := h.Init();
    InitAsked(before, h.asked, h.brk, ok);
    owed, log := map[], Log([h.words], [h.state], []);
    if ok {
      LogStarts(reqs, h.words, h.state);
      for n := 0 to |reqs|
        invariant h.Valid() && |log.es| == n && owed == Owed(log.es)
        invariant Logged(log, reqs, h.words, h.state)
        invariant before <= h.asked && (AnyDenied(log.es) <==> Refused(before, h.asked))
      {
        owed, log := ServeNext(h, reqs, n, owed, log, before);
      }
      RunHonours(log.ss, log.es);
    }
  }

  lemma InitAsked(a: seq<SbrkCall>, b: seq<SbrkCall>, brk: int, ok: bool)
    requires b == a + [SbrkCall(96, brk != 0)] + if brk == 0 then [] else [SbrkCall(4096, ok)]
    requires ok ==> brk != 0
    ensures a <= b && (!ok <==> Refused(a, b))
  {
    assert b[|a|].granted == (brk != 0);
    if brk != 0 { assert b[|a| + 1].granted == ok; }
  }
}
