// The set-associative cache simulator of cache lab/cachelab-handout/csim.c.
module CacheSim {
  import opened Basics

  datatype Line = Line(valid: bool, tag: int, accessed: int)
  type CacheSet = seq<Line>

  // What one access does to its set, and at which line.
  datatype Effect = Hit(i: nat) | Fill(i: nat) | Evict(i: nat)

  predicate Holds(line: Line, tag: int) {
    line.valid && line.tag == tag
  }

  function FirstMatch(lines: CacheSet, tag: int): (i: nat)
    ensures i <= |lines| && (i < |lines| ==> Holds(lines[i], tag)) && forall j | 0 <= j < i :: !Holds(lines[j], tag)
  {
    if lines == [] || Holds(lines[0], tag) then 0 else
      var i := FirstMatch(lines[1..], tag);
      assert forall j | 1 <= j <= i :: lines[j] == lines[1..][j - 1];
      i + 1
  }

  function FirstInvalid(lines: CacheSet): (i: nat)
    ensures i <= |lines| && (i < |lines| ==> !lines[i].valid) && forall j | 0 <= j < i :: lines[j].valid
  {
    if lines == [] || !lines[0].valid then 0 else
      var i := FirstInvalid(lines[1..]);
      assert forall j | 1 <= j <= i :: lines[j] == lines[1..][j - 1];
      i + 1
  }

  ghost predicate IsMax(lines: CacheSet, v: int) {
    (exists j :: 0 <= j < |lines| && lines[j].accessed == v) && forall j | 0 <= j < |lines| :: lines[j].accessed <= v
  }

  function MaxAccessed(lines: CacheSet): (v: int)
    requires lines != []
    ensures IsMax(lines, v)
  {
    if |lines| == 1 then
      assert lines[0].accessed == lines[0].accessed;
      lines[0].accessed
    else
      var v := MaxAccessed(lines[1..]);
      assert forall j | 1 <= j < |lines| :: lines[j] == lines[1..][j - 1];
      var w := if lines[0].accessed > v then lines[0].accessed else v;
      assert IsMax(lines, w) by {
        var j :| 0 <= j < |lines[1..]| && lines[1..][j].accessed == v;
        assert lines[j + 1].accessed == v;
      }
      w
  }

  ghost predicate IsFirstMin(lines: CacheSet, i: int) {
    && 0 <= i < |lines|
    && (forall j | 0 <= j < |lines| :: lines[i].accessed <= lines[j].accessed)
    && (forall j | 0 <= j < i :: lines[i].accessed < lines[j].accessed)
  }

  function FirstMin(lines: CacheSet): (i: nat)
    requires lines != []
    ensures IsFirstMin(lines, i)
  {
    if |lines| == 1 then 0 else
      var i := FirstMin(lines[1..]);
      assert forall j | 1 <= j < |lines| :: lines[j] == lines[1..][j - 1];
      if lines[0].accessed <= lines[i + 1].accessed then 0 else i + 1
  }

  function EffectOf(lines: CacheSet, tag: int): Effect
    requires lines != []
  {
    var m := FirstMatch(lines, tag);
    var f := FirstInvalid(lines);
    if m < |lines| then Hit(m) else if f < |lines| then Fill(f) else Evict(FirstMin(lines))
  }

  function Accessed(lines: CacheSet, tag: int): (lines': CacheSet)
    requires lines != []
    ensures |lines'| == |lines|
  {
    match EffectOf(lines, tag)
    case Hit(i) => lines[i := lines[i].(accessed := lines[i].accessed + 1)]
    case Fill(i) => lines[i := Line(true, tag, MaxAccessed(lines) + 1)]
    case Evict(i) => lines[i := lines[i].(tag := tag, accessed := MaxAccessed(lines) + 1)]
  }

  // ---------- one set ----------

  // Valid lines come first and hold different tags.
  ghost predicate SetOk(lines: CacheSet) {
    && lines != []
    && (forall i, j | 0 <= i < j < |lines| :: lines[j].valid ==> lines[i].valid)
    && (forall i, j | 0 <= i < j < |lines| && lines[j].valid :: lines[i].tag != lines[j].tag)
  }

  lemma AccessOk(lines: CacheSet, tag: int)
    requires SetOk(lines)
    ensures SetOk(Accessed(lines, tag))
    ensures exists j :: 0 <= j < |lines| && Holds(Accessed(lines, tag)[j], tag)
  {
    var eff, lines' := EffectOf(lines, tag), Accessed(lines, tag);
    assert Holds(lines'[eff.i], tag);
  }

  // What the set holds after an access: the tag, and what it held before unless that line was evicted.
  lemma AccessHolds(lines: CacheSet, tag: int, t: int)
    requires SetOk(lines)
    ensures var eff, lines' := EffectOf(lines, tag), Accessed(lines, tag);
      (exists j :: 0 <= j < |lines'| && Holds(lines'[j], t)) <==>
      (t == tag || exists j :: 0 <= j < |lines| && Holds(lines[j], t) && !(eff.Evict? && j == eff.i))
  {
    var eff, lines' := EffectOf(lines, tag), Accessed(lines, tag);
    assert Holds(lines'[eff.i], tag);
    forall j | 0 <= j < |lines| && Holds(lines[j], t) && !(eff.Evict? && j == eff.i) ensures Holds(lines'[j], t) {}
    forall j | 0 <= j < |lines| && Holds(lines'[j], t) && t != tag ensures Holds(lines[j], t) {}
  }

  // A line brought in gets a counter above all others: one more than the largest.
  lemma MissNewest(lines: CacheSet, tag: int, j: int)
    requires lines != [] && !EffectOf(lines, tag).Hit? && 0 <= j < |lines|
    ensures var i, lines' := EffectOf(lines, tag).i, Accessed(lines, tag);
      && lines'[i].tag == tag && lines'[i].accessed == MaxAccessed(lines) + 1
      && (j != i ==> lines'[j] == lines[j] && lines'[j].accessed < lines'[i].accessed)
  {
    assert IsMax(lines, MaxAccessed(lines));
    assert lines[j].accessed <= MaxAccessed(lines);
  }

  // A hit adds one to the counter of the line with the tag, of which there is one, and changes nothing else.
  lemma HitRaises(lines: CacheSet, tag: int, i: int, j: int)
    requires SetOk(lines) && 0 <= i < |lines| && Holds(lines[i], tag) && 0 <= j < |lines|
    ensures EffectOf(lines, tag) == Hit(i)
    ensures Accessed(lines, tag)[j] == if j == i then Line(true, tag, lines[i].accessed + 1) else lines[j]
  {
    var m := FirstMatch(lines, tag);
    assert m <= i;
  }

  function CountValid(lines: CacheSet): (n: nat)
    ensures n <= |lines|
  {
    if lines == [] then 0 else (if lines[0].valid then 1 else 0) + CountValid(lines[1..])
  }

  lemma {:induction false} CountUpdate(lines: CacheSet, i: nat, line: Line)
    requires i < |lines|
    ensures CountValid(lines[i := line]) ==
      CountValid(lines) - (if lines[i].valid then 1 else 0) + if line.valid then 1 else 0
  {
    if i > 0 {
      CountUpdate(lines[1..], i - 1, line);
      assert lines[i := line][1..] == lines[1..][i - 1 := line];
    } else {
      assert lines[i := line][1..] == lines[1..];
    }
  }

  lemma AccessCount(lines: CacheSet, tag: int)
    requires SetOk(lines)
    ensures CountValid(Accessed(lines, tag)) == CountValid(lines) + if EffectOf(lines, tag).Fill? then 1 else 0
  {
    var i := EffectOf(lines, tag).i;
    CountUpdate(lines, i, Accessed(lines, tag)[i]);
  }

  // ---------- the whole cache ----------

  datatype Geometry = Geometry(s: nat, e: nat, b: nat)
  datatype Op = Op(opt: char, addr: int)
  datatype Cache = Cache(sets: seq<CacheSet>, hits: int, misses: int, evicts: int)

  ghost predicate Sane(g: Geometry) {
    1 <= g.s <= 30 && 1 <= g.e && g.s + g.b <= 63
  }

  // The memory block of an address, and where the cache looks for it.
  function BlockOf(g: Geometry, addr: int): int {
    addr / Pow2(g.b)
  }

  function SetOf(g: Geometry, block: int): (i: int)
    ensures 0 <= i < Pow2(g.s)
  {
    block % Pow2(g.s)
  }

  function TagOf(g: Geometry, block: int): int {
    block / Pow2(g.s)
  }

  ghost predicate CacheOk(g: Geometry, c: Cache) {
    |c.sets| == Pow2(g.s) && 1 <= g.e && forall i | 0 <= i < |c.sets| :: SetOk(c.sets[i]) && |c.sets[i]| == g.e
  }

  function Weight(op: Op): int {
    if op.opt == 'M' then 2 else 1
  }

  function Step(g: Geometry, c: Cache, op: Op): Cache
    requires |c.sets| == Pow2(g.s) && forall i | 0 <= i < |c.sets| :: c.sets[i] != []
  {
    var block := BlockOf(g, op.addr);
    var i, tag := SetOf(g, block), TagOf(g, block);
    var eff := EffectOf(c.sets[i], tag);
    Cache(c.sets[i := Accessed(c.sets[i], tag)],
          c.hits + if eff.Hit? then Weight(op) else Weight(op) - 1,
          c.misses + if eff.Hit? then 0 else 1,
          c.evicts + if eff.Evict? then 1 else 0)
  }

  function EmptySet(e: nat): (lines: CacheSet)
    ensures |lines| == e && forall i | 0 <= i < e :: lines[i] == Line(false, 0, 0)
  {
    if e == 0 then [] else EmptySet(e - 1) + [Line(false, 0, 0)]
  }

  function Start(g: Geometry): (c: Cache)
    ensures 1 <= g.e ==> CacheOk(g, c)
  {
    Cache(seq(Pow2(g.s), _ => EmptySet(g.e)), 0, 0, 0)
  }

  lemma StepOk(g: Geometry, c: Cache, op: Op)
    requires CacheOk(g, c)
    ensures CacheOk(g, Step(g, c, op))
  {
    var block := BlockOf(g, op.addr);
    AccessOk(c.sets[SetOf(g, block)], TagOf(g, block));
  }

  // The cache after a trace.
  function Run(g: Geometry, ops: seq<Op>): (c: Cache)
    requires 1 <= g.e
    ensures CacheOk(g, c)
  {
    if ops == [] then Start(g) else
      var c := Run(g, ops[..|ops| - 1]);
      StepOk(g, c, ops[|ops| - 1]);
      Step(g, c, ops[|ops| - 1])
  }

  // ---------- the ledger ----------

  function Modifies(ops: seq<Op>): nat {
    if ops == [] then 0 else Modifies(ops[..|ops| - 1]) + if ops[|ops| - 1].opt == 'M' then 1 else 0
  }

  function TotalValid(sets: seq<CacheSet>): int {
    if sets == [] then 0 else CountValid(sets[0]) + TotalValid(sets[1..])
  }

  lemma {:induction false} TotalUpdate(sets: seq<CacheSet>, i: nat, lines: CacheSet)
    requires i < |sets|
    ensures TotalValid(sets[i := lines]) == TotalValid(sets) - CountValid(sets[i]) + CountValid(lines)
  {
    if i > 0 {
      TotalUpdate(sets[1..], i - 1, lines);
      assert sets[i := lines][1..] == sets[1..][i - 1 := lines];
    } else {
      assert sets[i := lines][1..] == sets[1..];
    }
  }

  lemma {:induction false} TotalBound(sets: seq<CacheSet>, e: nat)
    requires forall i | 0 <= i < |sets| :: |sets[i]| == e
    ensures 0 <= TotalValid(sets) <= |sets| * e
  {
    if sets == [] {
    } else {
      TotalBound(sets[1..], e);
      assert |sets| * e == e + |sets[1..]| * e;
    }
  }

  lemma {:induction false} EmptyTotal(sets: seq<CacheSet>, e: nat)
    requires forall i | 0 <= i < |sets| :: sets[i] == EmptySet(e)
    ensures TotalValid(sets) == 0
  {
    if sets == [] {
    } else {
      EmptyCount(sets[0]);
      EmptyTotal(sets[1..], e);
    }
  }

  lemma {:induction false} EmptyCount(lines: CacheSet)
    requires forall i | 0 <= i < |lines| :: !lines[i].valid
    ensures CountValid(lines) == 0
  {
    if lines == [] {
    } else {
      EmptyCount(lines[1..]);
    }
  }

  // After every trace: each M counts twice, and the misses that evicted nothing are the valid lines.
  lemma {:induction false} Ledger(g: Geometry, ops: seq<Op>)
    requires 1 <= g.e
    ensures var c := Run(g, ops);
      && c.hits + c.misses == |ops| + Modifies(ops)
      && c.misses - c.evicts == TotalValid(c.sets) <= Pow2(g.s) * g.e
  {
    var c := Run(g, ops);
    if ops == [] {
      EmptyTotal(c.sets, g.e);
    } else {
      var n := |ops| - 1;
      Ledger(g, ops[..n]);
      var c0, block := Run(g, ops[..n]), BlockOf(g, ops[n].addr);
      var i, tag := SetOf(g, block), TagOf(g, block);
      AccessCount(c0.sets[i], tag);
      TotalUpdate(c0.sets, i, Accessed(c0.sets[i], tag));
    }
    TotalBound(c.sets, g.e);
  }

  // ---------- misses and distinct blocks ----------

  function Seen(g: Geometry, ops: seq<Op>): set<int> {
    if ops == [] then {} else Seen(g, ops[..|ops| - 1]) + {BlockOf(g, ops[|ops| - 1].addr)}
  }

  ghost predicate Holding(g: Geometry, c: Cache, block: int)
    requires |c.sets| == Pow2(g.s)
  {
    var lines := c.sets[SetOf(g, block)];
    exists j :: 0 <= j < |lines| && Holds(lines[j], TagOf(g, block))
  }

  lemma SameBlock(g: Geometry, k: int, k': int)
    requires SetOf(g, k) == SetOf(g, k') && TagOf(g, k) == TagOf(g, k')
    ensures k == k'
  {
    assert k == Pow2(g.s) * TagOf(g, k) + SetOf(g, k);
    assert k' == Pow2(g.s) * TagOf(g, k') + SetOf(g, k');
  }

  lemma StepHolding(g: Geometry, c: Cache, op: Op, k: int)
    requires CacheOk(g, c)
    ensures var c', block := Step(g, c, op), BlockOf(g, op.addr);
      && Holding(g, c', block)
      && (Holding(g, c', k) ==> k == block || Holding(g, c, k))
      && (Holding(g, c, k) && c'.evicts == c.evicts ==> Holding(g, c', k))
      && (c'.misses == c.misses <==> Holding(g, c, block))
  {
    var block := BlockOf(g, op.addr);
    var i, tag := SetOf(g, block), TagOf(g, block);
    AccessHolds(c.sets[i], tag, tag);
    AccessHolds(c.sets[i], tag, TagOf(g, k));
    if SetOf(g, k) == i && TagOf(g, k) == tag { SameBlock(g, k, block); }
    MatchIsHolding(c.sets[i], tag);
  }

  lemma MatchIsHolding(lines: CacheSet, tag: int)
    requires lines != []
    ensures EffectOf(lines, tag).Hit? <==> exists j :: 0 <= j < |lines| && Holds(lines[j], tag)
  {
    var m := FirstMatch(lines, tag);
    if m < |lines| { assert Holds(lines[m], tag); }
  }

  lemma {:induction false} HeldIsSeen(g: Geometry, ops: seq<Op>, k: int)
    requires 1 <= g.e && Holding(g, Run(g, ops), k)
    ensures k in Seen(g, ops)
  {
    if ops == [] {
      assert false;
    } else {
      var n := |ops| - 1;
      StepHolding(g, Run(g, ops[..n]), ops[n], k);
      if k != BlockOf(g, ops[n].addr) { HeldIsSeen(g, ops[..n], k); }
    }
  }

  // Every distinct block costs at least one miss.
  lemma {:induction false} MissesCoverBlocks(g: Geometry, ops: seq<Op>)
    requires 1 <= g.e
    ensures Run(g, ops).misses >= |Seen(g, ops)|
  {
    if ops == [] {
    } else {
      var n := |ops| - 1;
      var c, block := Run(g, ops[..n]), BlockOf(g, ops[n].addr);
      MissesCoverBlocks(g, ops[..n]);
      StepHolding(g, c, ops[n], block);
      if Holding(g, c, block) {
        HeldIsSeen(g, ops[..n], block);
        assert Seen(g, ops) == Seen(g, ops[..n]);
      }
    }
  }

  // The distinct blocks, that is the distinct tags, that one set has seen.
  function SeenIn(g: Geometry, ops: seq<Op>, i: int): set<int> {
    set k | k in Seen(g, ops) && SetOf(g, k) == i
  }

  ghost predicate Uncrowded(g: Geometry, ops: seq<Op>) {
    forall i | 0 <= i < Pow2(g.s) :: |SeenIn(g, ops, i)| <= g.e
  }

  lemma {:induction false} DistinctFits(ks: seq<int>, x: set<int>)
    requires (forall i, j | 0 <= i < j < |ks| :: ks[i] != ks[j]) && forall i | 0 <= i < |ks| :: ks[i] in x
    ensures |ks| <= |x|
  {
    if ks == [] {
    } else {
      DistinctFits(ks[1..], x - {ks[0]});
    }
  }

  lemma SubsetSize(x: set<int>, y: set<int>)
    requires x <= y
    ensures |x| <= |y|
  {
    assert y == x + (y - x);
  }

  lemma UncrowdedPrefix(g: Geometry, ops: seq<Op>)
    requires ops != [] && Uncrowded(g, ops)
    ensures Uncrowded(g, ops[..|ops| - 1])
  {
    var ops' := ops[..|ops| - 1];
    forall i | 0 <= i < Pow2(g.s) ensures |SeenIn(g, ops', i)| <= g.e {
      SubsetSize(SeenIn(g, ops', i), SeenIn(g, ops, i));
    }
  }

  // The block that line j of set i stands for.
  function LineBlock(g: Geometry, lines: CacheSet, i: int, j: int): int
    requires 0 <= j < |lines|
  {
    Pow2(g.s) * lines[j].tag + i
  }

  lemma LineBlockSplit(g: Geometry, lines: CacheSet, i: int, j: int)
    requires 0 <= j < |lines| && 0 <= i < Pow2(g.s)
    ensures var k := LineBlock(g, lines, i, j); SetOf(g, k) == i && TagOf(g, k) == lines[j].tag
  {
    DivModUnique(LineBlock(g, lines, i, j), Pow2(g.s), lines[j].tag, i);
  }

  // A valid line stands for a block that its set has seen.
  lemma LineSeen(g: Geometry, ops: seq<Op>, i: int, j: int)
    requires 1 <= g.e && 0 <= i < Pow2(g.s) && 0 <= j < g.e && Run(g, ops).sets[i][j].valid
    ensures LineBlock(g, Run(g, ops).sets[i], i, j) in SeenIn(g, ops, i)
  {
    var lines := Run(g, ops).sets[i];
    LineBlockSplit(g, lines, i, j);
    assert Holds(lines[j], lines[j].tag);
    HeldIsSeen(g, ops, LineBlock(g, lines, i, j));
  }

  function LineBlocks(g: Geometry, lines: CacheSet, i: int): (ks: seq<int>)
    ensures |ks| == |lines| && forall j | 0 <= j < |ks| :: ks[j] == LineBlock(g, lines, i, j)
  {
    seq(|lines|, j requires 0 <= j < |lines| => LineBlock(g, lines, i, j))
  }

  // The lines of a full set that does not hold the block stand for other blocks, each for its own.
  lemma FullSetBlocks(g: Geometry, lines: CacheSet, i: int, block: int)
    requires SetOk(lines) && 0 <= i < Pow2(g.s) && EffectOf(lines, TagOf(g, block)).Evict?
    ensures var ks := [block] + LineBlocks(g, lines, i); forall h, j | 0 <= h < j < |ks| :: ks[h] != ks[j]
  {
    var ks := [block] + LineBlocks(g, lines, i);
    forall h, j | 0 <= h < j < |ks| ensures ks[h] != ks[j] {
      LineBlockSplit(g, lines, i, j - 1);
      assert !Holds(lines[j - 1], TagOf(g, block));
      if 0 < h { LineBlockSplit(g, lines, i, h - 1); }
    }
  }

  // A full set that misses has, with the block it misses, seen more blocks than it has lines.
  lemma FullMissCrowds(g: Geometry, ops: seq<Op>, block: int)
    requires 1 <= g.e && EffectOf(Run(g, ops).sets[SetOf(g, block)], TagOf(g, block)).Evict?
    ensures |SeenIn(g, ops, SetOf(g, block)) + {block}| > g.e
  {
    var i := SetOf(g, block);
    var lines := Run(g, ops).sets[i];
    var ks := [block] + LineBlocks(g, lines, i);
    FullSetBlocks(g, lines, i, block);
    forall j | 0 <= j < |ks| ensures ks[j] in SeenIn(g, ops, i) + {block} {
      if 0 < j { LineSeen(g, ops, i, j - 1); }
    }
    DistinctFits(ks, SeenIn(g, ops, i) + {block});
  }

  lemma SeenInLast(g: Geometry, ops: seq<Op>)
    requires ops != []
    ensures var n := |ops| - 1; var block := BlockOf(g, ops[n].addr);
      SeenIn(g, ops, SetOf(g, block)) == SeenIn(g, ops[..n], SetOf(g, block)) + {block}
  {
  }

  lemma NeverEvicts(g: Geometry, ops: seq<Op>)
    requires 1 <= g.e && ops != [] && Uncrowded(g, ops)
    ensures Run(g, ops).evicts == Run(g, ops[..|ops| - 1]).evicts
  {
    var n := |ops| - 1;
    var block := BlockOf(g, ops[n].addr);
    SeenInLast(g, ops);
    if EffectOf(Run(g, ops[..n]).sets[SetOf(g, block)], TagOf(g, block)).Evict? {
      FullMissCrowds(g, ops[..n], block);
      assert false;
    }
  }

  // If no set sees more tags than it has lines, nothing is evicted and only first references miss.
  lemma {:induction false} UncrowdedNeverEvicts(g: Geometry, ops: seq<Op>)
    requires 1 <= g.e && Uncrowded(g, ops)
    ensures Run(g, ops).evicts == 0 && Run(g, ops).misses == |Seen(g, ops)|
    ensures forall k | k in Seen(g, ops) :: Holding(g, Run(g, ops), k)
  {
    if ops == [] {
    } else {
      var n := |ops| - 1;
      var c, block := Run(g, ops[..n]), BlockOf(g, ops[n].addr);
      UncrowdedPrefix(g, ops);
      UncrowdedNeverEvicts(g, ops[..n]);
      NeverEvicts(g, ops);
      StepHolding(g, c, ops[n], block);
      if Holding(g, c, block) {
        HeldIsSeen(g, ops[..n], block);
        assert Seen(g, ops) == Seen(g, ops[..n]);
      } else {
        assert block !in Seen(g, ops[..n]);
      }
      forall k | k in Seen(g, ops) ensures Holding(g, Run(g, ops), k) { StepHolding(g, c, ops[n], k); }
    }
  }

  // ---------- counters ----------

  // The block is held, by a line with counter v.
  ghost predicate HasCounter(g: Geometry, c: Cache, k: int, v: int)
    requires |c.sets| == Pow2(g.s)
  {
    var lines := c.sets[SetOf(g, k)];
    var j := FirstMatch(lines, TagOf(g, k));
    j < |lines| && lines[j].accessed == v
  }

  lemma SetCounter(lines: CacheSet, tag: int, t: int)
    requires SetOk(lines) && FirstMatch(lines, t) < |lines| && FirstMatch(Accessed(lines, tag), t) < |lines|
    ensures Accessed(lines, tag)[FirstMatch(Accessed(lines, tag), t)].accessed ==
      lines[FirstMatch(lines, t)].accessed + if t == tag then 1 else 0
  {
    var lines' := Accessed(lines, tag);
    var j, j' := FirstMatch(lines, t), FirstMatch(lines', t);
    if t == tag {
      HitRaises(lines, tag, j, j);
      HitRaises(lines, tag, j, j');
    } else {
      AccessOk(lines, tag);
      assert lines'[j'] == lines[j'];
      assert j == j';
    }
  }

  // An access to the block itself adds one to its counter; any other leaves it as it is.
  lemma StepCounter(g: Geometry, c: Cache, op: Op, k: int, v: int)
    requires CacheOk(g, c) && HasCounter(g, c, k, v) && Holding(g, Step(g, c, op), k)
    ensures HasCounter(g, Step(g, c, op), k, v + if BlockOf(g, op.addr) == k then 1 else 0)
  {
    var block := BlockOf(g, op.addr);
    var i, tag := SetOf(g, block), TagOf(g, block);
    if SetOf(g, k) == i {
      MatchIsHolding(Accessed(c.sets[i], tag), TagOf(g, k));
      SetCounter(c.sets[i], tag, TagOf(g, k));
      if tag == TagOf(g, k) { SameBlock(g, k, block); }
    }
  }

  // The accesses to a block in a trace
  function Accesses(g: Geometry, ops: seq<Op>, k: int): nat {
    if ops == [] then 0 else
      Accesses(g, ops[..|ops| - 1], k) + if BlockOf(g, ops[|ops| - 1].addr) == k then 1 else 0
  }

  // The cache after more operations from c on
  function RunFrom(g: Geometry, c: Cache, more: seq<Op>): (c': Cache)
    requires CacheOk(g, c)
    ensures CacheOk(g, c')
    decreases |more|
  {
    if more == [] then c else
      var c' := RunFrom(g, c, more[..|more| - 1]);
      StepOk(g, c', more[|more| - 1]);
      Step(g, c', more[|more| - 1])
  }

  lemma {:induction false} RunIsFromStart(g: Geometry, ops: seq<Op>)
    requires 1 <= g.e
    ensures Run(g, ops) == RunFrom(g, Start(g), ops)
    decreases |ops|
  {
    if ops == [] {
    } else {
      RunIsFromStart(g, ops[..|ops| - 1]);
    }
  }

  // From c on, the block is in the cache before and after every operation.
  ghost predicate Stays(g: Geometry, c: Cache, more: seq<Op>, k: int)
    requires CacheOk(g, c)
    decreases |more|
  {
    Holding(g, RunFrom(g, c, more), k) && (more != [] ==> Stays(g, c, more[..|more| - 1], k))
  }

  // While a block stays in the cache, its counter grows by the accesses to it and by nothing else.
  lemma {:induction false} CounterCounts(g: Geometry, c: Cache, more: seq<Op>, k: int, v: int)
    requires CacheOk(g, c) && HasCounter(g, c, k, v) && Stays(g, c, more, k)
    ensures HasCounter(g, RunFrom(g, c, more), k, v + Accesses(g, more, k))
    decreases |more|
  {
    if more == [] {
    } else {
      var rest, op := more[..|more| - 1], more[|more| - 1];
      CounterCounts(g, c, rest, k, v);
      StepCounter(g, RunFrom(g, c, rest), op, k, v + Accesses(g, rest, k));
    }
  }

  // ---------- direct-mapped caches ----------

  // The tag of the latest access to set i.
  function LastTag(g: Geometry, ops: seq<Op>, i: int): Option<int> {
    if ops == [] then None else
      var block := BlockOf(g, ops[|ops| - 1].addr);
      if SetOf(g, block) == i then Some(TagOf(g, block)) else LastTag(g, ops[..|ops| - 1], i)
  }

  lemma {:induction false} DirectMappedLine(g: Geometry, ops: seq<Op>, i: int)
    requires g.e == 1 && 0 <= i < Pow2(g.s)
    ensures var line := Run(g, ops).sets[i][0];
      if line.valid then LastTag(g, ops, i) == Some(line.tag) else LastTag(g, ops, i) == None
  {
    if ops == [] {
    } else {
      DirectMappedLine(g, ops[..|ops| - 1], i);
    }
  }

  // With one line a set, an access hits exactly if the latest access to its set had the same tag.
  lemma DirectMappedHit(g: Geometry, ops: seq<Op>, op: Op)
    requires g.e == 1
    ensures var block := BlockOf(g, op.addr);
      EffectOf(Run(g, ops).sets[SetOf(g, block)], TagOf(g, block)).Hit? <==>
      LastTag(g, ops, SetOf(g, block)) == Some(TagOf(g, block))
  {
    var block := BlockOf(g, op.addr);
    DirectMappedLine(g, ops, SetOf(g, block));
    assert FirstMatch(Run(g, ops).sets[SetOf(g, block)], TagOf(g, block)) == 0 <==>
      Holds(Run(g, ops).sets[SetOf(g, block)][0], TagOf(g, block));
  }

  // ---------- splitting an address (csim.c:139, 152-153) ----------

  // Scaling dividend and divisor by t scales the remainder and leaves the quotient.
  lemma ScaleMod(x: int, m: int, t: int)
    requires 0 < m && 0 < t
    ensures 0 < m * t && x * t % (m * t) == x % m * t && x * t / (m * t) == x / m
  {
    assert 0 < m * t;
    assert x == m * (x / m) + x % m;
    assert x * t == (m * t) * (x / m) + x % m * t by {
      assert (m * (x / m)) * t == (m * t) * (x / m);
      assert (m * (x / m) + x % m) * t == (m * (x / m)) * t + x % m * t;
    }
    ScaleLess(x % m, m, t);
    DivModUnique(x * t, m * t, x / m, x % m * t);
  }

  lemma ScaleLess(r: int, m: int, t: int)
    requires 0 <= r < m && 0 < t
    ensures 0 <= r * t && r * t + t <= m * t
  {
    MulLe(r + 1, m, t);
    MulLe(0, r, t);
    assert (r + 1) * t == r * t + t;
  }

  lemma Regroup(p: int, q: int, h: int, l: int, r: int)
    ensures p * (q * h + l) + r == (p * q) * h + (p * l + r)
  {
    assert p * (q * h + l) == p * (q * h) + p * l;
    assert p * (q * h) == (p * q) * h;
  }

  // Dividing in two steps.
  lemma DivTwice(x: int, p: int, q: int)
    requires 0 < p && 0 < q && 0 <= x
    ensures 0 < p * q && x / (p * q) == x / p / q && x % (p * q) / p == x / p % q
    ensures x == x / (p * q) * (p * q) + x / p % q * p + x % p
  {
    var k, r := x / p, x % p;
    var h, l := k / q, k % q;
    MulLe(1, q, p);
    Regroup(p, q, h, l, r);
    ScaleLess(l, q, p);
    DivModUnique(x, p * q, h, p * l + r);
    DivModUnique(p * l + r, p, l, r);
  }

  // The shifts of executeInst split the address into tag, set and offset without loss.
  lemma SplitFaithful(g: Geometry, addr: int)
    requires Sane(g) && 0 <= addr < Pow2(64)
    ensures var tagBits := 64 - g.s - g.b;
      && Shr(addr, g.s + g.b) == TagOf(g, BlockOf(g, addr))
      && Shr(Shl(addr, tagBits, Pow2(64)), tagBits + g.b) == SetOf(g, BlockOf(g, addr))
      && addr == TagOf(g, BlockOf(g, addr)) * Pow2(g.s + g.b) + SetOf(g, BlockOf(g, addr)) * Pow2(g.b)
                 + addr % Pow2(g.b)
  {
    var tagBits := 64 - g.s - g.b;
    var p, q, t := Pow2(g.b), Pow2(g.s), Pow2(tagBits);
    Pow2Add(g.b, g.s);
    Pow2Add(g.s + g.b, tagBits);
    Pow2Add(g.b, tagBits);
    DivTwice(addr, p, q);
    ScaleMod(addr, p * q, t);
    ScaleMod(addr % (p * q), p, t);
  }

  // Two addresses share tag and set exactly if they lie in the same block of 2^b bytes.
  lemma SameLineIffSameBlock(g: Geometry, x: int, y: int)
    requires Sane(g) && 0 <= x < Pow2(64) && 0 <= y < Pow2(64)
    ensures var t := 64 - g.s - g.b;
      (Shr(x, g.s + g.b) == Shr(y, g.s + g.b) && Shr(Shl(x, t, Pow2(64)), t + g.b) == Shr(Shl(y, t, Pow2(64)), t + g.b))
      <==> x / Pow2(g.b) == y / Pow2(g.b)
  {
    SplitFaithful(g, x);
    SplitFaithful(g, y);
    if TagOf(g, BlockOf(g, x)) == TagOf(g, BlockOf(g, y)) && SetOf(g, BlockOf(g, x)) == SetOf(g, BlockOf(g, y)) {
      SameBlock(g, BlockOf(g, x), BlockOf(g, y));
    }
  }

  // ---------- the program ----------

  const MISS := 1
  const HIT := 2
  const MISS_EVICT := 3
  const MISS_HIT := 4
  const MISS_EVICT_HIT := 5

  function Code(eff: Effect, opt: char): int {
    match eff
    case Hit(_) => HIT
    case Fill(_) => if opt == 'M' then MISS_HIT else MISS
    case Evict(_) => if opt == 'M' then MISS_EVICT_HIT else MISS_EVICT
  }

  // What one instruction does to the set it addresses, to the counters and as its result, told from the lines
  // before and after: hits, misses and evictions are the changes of the counters.
  ghost predicate Executed(before: CacheSet, after: CacheSet, tag: int, opt: char,
                           code: int, hits: int, misses: int, evicts: int)
  {
    var again := if opt == 'M' then 1 else 0;
    && |after| == |before|
    && if exists i :: 0 <= i < |before| && Holds(before[i], tag) then
         && code == 2 && hits == 1 + again && misses == 0 && evicts == 0
         && forall j | 0 <= j < |before| ::
              after[j] == if Holds(before[j], tag) then Line(true, tag, before[j].accessed + 1) else before[j]
       else
         exists i, newest ::
           && 0 <= i < |before| && IsMax(before, newest) && hits == again && misses == 1
           && after == before[i := Line(true, tag, newest + 1)]
           && if exists j :: 0 <= j < |before| && !before[j].valid
              then IsFirstInvalid(before, i) && evicts == 0 && code == if opt == 'M' then 4 else 1
              else IsFirstMin(before, i) && evicts == 1 && code == if opt == 'M' then 5 else 3
  }

  ghost predicate IsFirstInvalid(lines: CacheSet, i: int) {
    0 <= i < |lines| && !lines[i].valid && forall j | 0 <= j < i :: lines[j].valid
  }

  lemma MissExecuted(lines: CacheSet, tag: int, opt: char)
    requires lines != [] && !EffectOf(lines, tag).Hit?
    ensures var eff := EffectOf(lines, tag);
      Executed(lines, Accessed(lines, tag), tag, opt, Code(eff, opt),
               if opt == 'M' then 1 else 0, 1, if eff.Evict? then 1 else 0)
  {
    var eff := EffectOf(lines, tag);
    var i, newest := eff.i, MaxAccessed(lines);
    MatchIsHolding(lines, tag);
    if eff.Evict? {
      assert lines[i].valid && IsFirstMin(lines, i);
    } else {
      assert IsFirstInvalid(lines, i);
    }
    assert IsMax(lines, newest) && Accessed(lines, tag) == lines[i := Line(true, tag, newest + 1)];
  }

  lemma HitExecuted(lines: CacheSet, tag: int, opt: char)
    requires SetOk(lines) && EffectOf(lines, tag).Hit?
    ensures Executed(lines, Accessed(lines, tag), tag, opt, HIT, if opt == 'M' then 2 else 1, 0, 0)
  {
    var i := EffectOf(lines, tag).i;
    forall j | 0 <= j < |lines|
      ensures Accessed(lines, tag)[j] ==
        if Holds(lines[j], tag) then Line(true, tag, lines[j].accessed + 1) else lines[j]
    {
      HitRaises(lines, tag, i, j);
      if Holds(lines[j], tag) { HitRaises(lines, tag, j, j); }
    }
  }

  // What the scan of executeInst has found in the first i lines.
  ghost predicate ScanState(lines: CacheSet, tag: int, i: int, full: bool, emptyIdx: int, evictIdx: int,
                            minAccess: int, maxAccess: int)
  {
    && lines != [] && 0 <= i <= |lines|
    && (forall j | 0 <= j < i :: !Holds(lines[j], tag))
    && (full ==> forall j | 0 <= j < i :: lines[j].valid)
    && (!full ==> 0 <= emptyIdx < i && !lines[emptyIdx].valid && forall j | 0 <= j < emptyIdx :: lines[j].valid)
    && 0 <= evictIdx < |lines| && (evictIdx < i || evictIdx == 0) && minAccess == lines[evictIdx].accessed <= maxAccess
    && (forall j | 0 <= j < i :: minAccess <= lines[j].accessed <= maxAccess)
    && (forall j | 0 <= j < evictIdx :: minAccess < lines[j].accessed)
    && (exists j :: 0 <= j < |lines| && lines[j].accessed == maxAccess)
  }

  lemma ScanEffect(lines: CacheSet, tag: int, full: bool, emptyIdx: int, evictIdx: int, minAccess: int, maxAccess: int)
    requires ScanState(lines, tag, |lines|, full, emptyIdx, evictIdx, minAccess, maxAccess)
    ensures EffectOf(lines, tag) == if full then Evict(evictIdx) else Fill(emptyIdx)
    ensures MaxAccessed(lines) == maxAccess
  {
    assert FirstMatch(lines, tag) == |lines|;
    assert FirstInvalid(lines) == if full then |lines| else emptyIdx;
    assert IsMax(lines, maxAccess) && IsMax(lines, MaxAccessed(lines));
    assert IsFirstMin(lines, evictIdx) && IsFirstMin(lines, FirstMin(lines));
  }

  // The scan of executeInst (csim.c:156-185): the effect of the access and the largest counter of the set
  method Scan(curSet: CacheSet, tag: int) returns (eff: Effect, maxAccess: int)
    requires curSet != []
    ensures eff == EffectOf(curSet, tag) && (!eff.Hit? ==> maxAccess == MaxAccessed(curSet))
  {
    var full, emptyIdx, evictIdx := true, 0, 0;
    maxAccess := curSet[0].accessed;
    var minAccess := curSet[0].accessed;
    var i := 0;
    while i < |curSet|
      invariant ScanState(curSet, tag, i, full, emptyIdx, evictIdx, minAccess, maxAccess)
    {
      if curSet[i].valid && curSet[i].tag == tag {
        return Hit(i), maxAccess;
      } else if !curSet[i].valid && full {
        full := false;
        emptyIdx := i;
      }
      if curSet[i].accessed < minAccess {
        minAccess := curSet[i].accessed;
        evictIdx := i;
      } else if curSet[i].accessed > maxAccess {
        maxAccess := curSet[i].accessed;
      }
      i := i + 1;
    }
    ScanEffect(curSet, tag, full, emptyIdx, evictIdx, minAccess, maxAccess);
    eff := if full then Evict(evictIdx) else Fill(emptyIdx);
  }

  // The address arithmetic of executeInst (csim.c:139, 152-153)
  method Locate(g: Geometry, addr: int) returns (tag: int, setIdx: int)
    requires Sane(g) && 0 <= addr < Pow2(64)
    ensures tag == TagOf(g, BlockOf(g, addr)) && setIdx == SetOf(g, BlockOf(g, addr))
  {
    var tagBits := 64 - g.s - g.b;
    tag := Shr(addr, g.s + g.b);
    setIdx := Shr(Shl(addr, tagBits, Pow2(64)), tagBits + g.b);
    SplitFaithful(g, addr);
  }

  class Simulator {
    const g: Geometry
    var sets: array<CacheSet>
    var hits: int
    var misses: int
    var evicts: int

    ghost function State(): Cache
      reads this, sets
    {
      Cache(sets[..], hits, misses, evicts)
    }

    ghost predicate Valid()
      reads this, sets
    {
      Sane(g) && CacheOk(g, State())
    }

    // createCache (csim.c:111-127), with the counters of parseArg
    constructor (g: Geometry)
      requires Sane(g)
      ensures this.g == g && Valid() && fresh(sets) && State() == Start(g)
    {
      this.g := g;
      hits, misses, evicts := 0, 0, 0;
      var setNum := Pow2(g.s);
      var table := new CacheSet[setNum](_ => []);
      for i := 0 to setNum
        invariant forall k | 0 <= k < i :: table[k] == EmptySet(g.e)
      {
        var lines := [];
        for j := 0 to g.e
          invariant lines == EmptySet(j)
        {
          lines := lines + [Line(false, 0, 0)];
        }
        table[i] := lines;
      }
      assert table[..] == Start(g).sets;
      sets := table;
    }

    // executeInst (csim.c:130-213) on a parsed instruction
    method Execute(op: Op) returns (code: int)
      requires Valid() && 0 <= op.addr < Pow2(64)
      modifies this, sets
      ensures Valid() && sets == old(sets) && State() == Step(g, old(State()), op)
      ensures var block := BlockOf(g, op.addr);
        code == Code(EffectOf(old(State()).sets[SetOf(g, block)], TagOf(g, block)), op.opt)
      ensures var i, tag := SetOf(g, BlockOf(g, op.addr)), TagOf(g, BlockOf(g, op.addr));
        && Executed(old(sets[i]), sets[i], tag, op.opt,
                    code, hits - old(hits), misses - old(misses), evicts - old(evicts))
        && forall k | 0 <= k < sets.Length && k != i :: sets[k] == old(sets[k])
    {
      ghost var c := State();
      StepOk(g, c, op);
      var tag, setIdx := Locate(g, op.addr);
      code := Apply(tag, setIdx, op.opt);
      ghost var c' := Step(g, c, op);
      ghost var lines := c.sets[setIdx];
      if EffectOf(lines, tag).Hit? { HitExecuted(lines, tag, op.opt); } else { MissExecuted(lines, tag, op.opt); }
      assert sets[..] == c'.sets && hits == c'.hits && misses == c'.misses && evicts == c'.evicts;
    }

    // executeInst once tag and set are known (csim.c:154-212)
    method Apply(tag: int, setIdx: int, opt: char) returns (code: int)
      requires 0 <= setIdx < sets.Length && sets[setIdx] != []
      modifies this, sets
      ensures sets == old(sets) && sets[..] == old(sets[..])[setIdx := Accessed(old(sets[setIdx]), tag)]
      ensures var eff := EffectOf(old(sets[setIdx]), tag);
        && code == Code(eff, opt)
        && hits == old(hits) + (if eff.Hit? then 1 else 0) + (if opt == 'M' then 1 else 0)
        && misses == old(misses) + (if eff.Hit? then 0 else 1)
        && evicts == old(evicts) + (if eff.Evict? then 1 else 0)
    {
      var eff, maxAccess := Scan(sets[setIdx], tag);
      match eff
      case Hit(i) =>
        hits := hits + if opt == 'M' then 2 else 1;
        var line := sets[setIdx][i];
        Write(setIdx, i, line.(accessed := line.accessed + 1));
        return HIT;
      case Fill(emptyIdx) =>
        misses := misses + 1;
        Write(setIdx, emptyIdx, Line(true, tag, maxAccess + 1));
        hits := hits + if opt == 'M' then 1 else 0;
        return if opt == 'M' then MISS_HIT else MISS;
      case Evict(evictIdx) =>
        misses := misses + 1;
        evicts := evicts + 1;
        var line := sets[setIdx][evictIdx];
        Write(setIdx, evictIdx, line.(tag := tag, accessed := maxAccess + 1));
        hits := hits + if opt == 'M' then 1 else 0;
        return if opt == 'M' then MISS_EVICT_HIT else MISS_EVICT;
    }

    // cache->sets[setIdx].lines[i] = line
    method Write(setIdx: int, i: int, line: Line)
      requires 0 <= setIdx < sets.Length && 0 <= i < |sets[setIdx]|
      modifies sets
      ensures sets[..] == old(sets[..])[setIdx := old(sets[setIdx])[i := line]]
    {
      sets[setIdx] := sets[setIdx][i := line];
    }

    // main's replay loop (csim.c:226-252) over the parsed trace
    method Replay(ops: seq<Op>)
      requires Valid() && State() == Start(g) && forall i | 0 <= i < |ops| :: 0 <= ops[i].addr < Pow2(64)
      modifies this, sets
      ensures Valid() && State() == Run(g, ops)
    {
      for i := 0 to |ops|
        invariant Valid() && sets == old(sets) && State() == Run(g, ops[..i])
      {
        var state := Execute(ops[i]);
        assert ops[..i + 1][..i] == ops[..i];
      }
      assert ops[..|ops|] == ops;
    }
  }
}
