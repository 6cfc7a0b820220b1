// How the words of the heap in malloc lab/mm.c represent the abstract state:
// boundary tags around every block, and ten circular doubly linked lists
// through the sentinel table and the free payloads.
module HeapWords {
  import opened Basics
  import opened HeapModel
  import opened HeapPolicy

  type Memory = map<int, Word> // word at each byte offset that is a multiple of 4

  function Rd(m: Memory, a: int): Word {
    if a in m then m[a] else 0
  }

  // PACK, GET_SIZE and GET_ALLOC (mm.c:126, 133-134)
  function Pack(blk: Block): int {
    blk.size + if blk.alloc then 1 else 0
  }

  function SizeOf(w: Word): int {
    w - w % 8
  }

  predicate AllocOf(w: Word) {
    w % 2 == 1
  }

  lemma Unpack(blk: Block, w: Word)
    requires w == Pack(blk) && blk.size % 8 == 0
    ensures SizeOf(w) == blk.size && AllocOf(w) == blk.alloc
  {
  }

  // ---------- boundary tags ----------

  ghost predicate TagAt(m: Memory, bs: Blocks, b: int)
    requires b in bs
  {
    Rd(m, b - 4) == Pack(bs[b]) && Rd(m, End(bs, b) - 8) == Pack(bs[b])
  }

  // Header and footer agree with the block, except for those being rewritten.
  ghost predicate Tagged(m: Memory, bs: Blocks, but: set<int>) {
    forall b {:trigger TagAt(m, bs, b)} | b in bs && b !in but :: TagAt(m, bs, b)
  }

  // Prologue header, prologue footer and epilogue.
  ghost predicate Walls(m: Memory, top: int) {
    Rd(m, 84) == 9 && Rd(m, 88) == 9 && Rd(m, top - 4) == 1
  }

  // ---------- free lists ----------

  function Ring(k: int, l: seq<int>): seq<int> {
    [8 * k] + l + [8 * k]
  }

  ghost predicate LinkAt(m: Memory, r: seq<int>, i: int)
    requires 0 <= i < |r| - 1
  {
    Rd(m, r[i]) == r[i + 1] && Rd(m, r[i + 1] + 4) == r[i]
  }

  // next and prev walk the sentinel and the list in opposite directions.
  ghost predicate Linked(m: Memory, k: int, l: seq<int>) {
    forall i {:trigger LinkAt(m, Ring(k, l), i)} | 0 <= i <= |l| :: LinkAt(m, Ring(k, l), i)
  }

  ghost predicate AllLinked(m: Memory, lists: Lists) {
    |lists| == LIST_NUM && forall k {:trigger Linked(m, k, lists[k])} | 0 <= k < LIST_NUM :: Linked(m, k, lists[k])
  }

  ghost predicate InBlocks(l: seq<int>, bs: Blocks) {
    forall x | x in l :: x in bs
  }

  // ---------- payloads ----------

  ghost predicate Same(m: Memory, m': Memory, lo: int, hi: int) {
    forall a | lo <= a < hi :: Rd(m', a) == Rd(m, a)
  }

  // The payloads of the allocated blocks are unchanged, word for word.
  ghost predicate Kept(m: Memory, m': Memory, bs: Blocks) {
    forall b {:trigger bs[b]} | b in bs && bs[b].alloc :: Same(m, m', b, End(bs, b) - 8)
  }

  // ---------- writes to link words ----------

  ghost predicate LinkWord(bs: Blocks, a: int) {
    0 <= a < 80 || exists y :: IsFree(bs, y) && (a == y || a == y + 4)
  }

  lemma LinkWordApart(bs: Blocks, top: int, a: int, b: int)
    requires Shaped(bs, top) && Apart(bs) && LinkWord(bs, a) && b in bs
    ensures a != b - 4 && a != End(bs, b) - 8 && a != 84 && a != 88 && a < top - 4
    ensures bs[b].alloc ==> !(b <= a < End(bs, b) - 8)
  {
    if !(0 <= a < 80) {
      var y :| IsFree(bs, y) && (a == y || a == y + 4);
      assert y < b || b < y || y == b;
    }
  }

  lemma LinkWordLow(bs: Blocks, top: int, a: int)
    requires Shaped(bs, top) && LinkWord(bs, a)
    ensures a != 84 && a != 88 && a < top - 4
  {
  }

  // Writing link words disturbs no tag and no allocated payload.
  lemma LinkWrite(m: Memory, bs: Blocks, top: int, but: set<int>, a: int, v: Word)
    requires Shaped(bs, top) && Apart(bs) && Tagged(m, bs, but) && Walls(m, top) && LinkWord(bs, a)
    ensures Tagged(m[a := v], bs, but) && Walls(m[a := v], top) && Kept(m, m[a := v], bs)
  {
    var m' := m[a := v];
    LinkWordLow(bs, top, a);
    forall b | b in bs && b !in but ensures TagAt(m', bs, b) {
      assert TagAt(m, bs, b);
      LinkWordApart(bs, top, a, b);
    }
    forall b | b in bs && bs[b].alloc ensures Same(m, m', b, End(bs, b) - 8) { LinkWordApart(bs, top, a, b); }
  }

  // A ring none of whose link words is written stays linked.
  lemma OffRing(m: Memory, k: int, l: seq<int>, a: int, v: Word)
    requires Linked(m, k, l) && forall x | x in Ring(k, l) :: a != x && a != x + 4
    ensures Linked(m[a := v], k, l)
  {
    var m', r := m[a := v], Ring(k, l);
    forall i | 0 <= i <= |l| ensures LinkAt(m', r, i) {
      assert LinkAt(m, r, i) && r[i] in r && r[i + 1] in r;
    }
  }

  // The nodes of a ring are two words apart from each other.
  ghost predicate Gaps(r: seq<int>) {
    forall i, j | 0 <= i < j < |r| && (0 < i || j < |r| - 1) :: r[i] + 8 <= r[j] || r[j] + 8 <= r[i]
  }

  lemma RingGaps(bs: Blocks, top: int, k: int, l: seq<int>)
    requires Shaped(bs, top) && Apart(bs) && 0 <= k < LIST_NUM && Distinct(l) && InBlocks(l, bs)
    ensures Gaps(Ring(k, l))
  {
    var r := Ring(k, l);
    forall i, j | 0 <= i < j < |r| && (0 < i || j < |r| - 1) ensures r[i] + 8 <= r[j] || r[j] + 8 <= r[i] {
      assert 0 < i ==> r[i] == l[i - 1] && l[i - 1] in l;
      assert j < |r| - 1 ==> r[j] == l[j - 1] && l[j - 1] in l;
    }
  }

  // ins_free_blk (mm.c:185-190): b goes between the sentinel and the first block of the ring.
  function InsertWords(m: Memory, k: int, first: Word, b: Word): Memory
    requires 0 <= k < LIST_NUM
  {
    m[b := first][b + 4 := 8 * k][8 * k := b][first + 4 := b]
  }

  lemma InsertRing(m: Memory, k: int, l: seq<int>, b: Word, first: Word)
    requires 0 <= k < LIST_NUM && Linked(m, k, l) && first == Ring(k, l)[1] && Gaps(Ring(k, [b] + l))
    ensures Linked(InsertWords(m, k, first, b), k, [b] + l)
  {
    var m', r, r' := InsertWords(m, k, first, b), Ring(k, l), Ring(k, [b] + l);
    assert r'[0] == 8 * k && r'[1] == b && r'[2] == first;
    assert forall i | 2 <= i < |r'| :: r'[i] == r[i - 1];
    assert LinkAt(m', r', 0) && LinkAt(m', r', 1);
    forall i | 2 <= i <= |[b] + l| ensures LinkAt(m', r', i) {
      assert LinkAt(m, r, i - 1);
      assert r'[i] != r'[1] && r'[i + 1] != r'[1] && r'[i] != r'[0] && r'[i + 1] != r'[2];
    }
  }

  // del_free_blk (mm.c:197-198): the two neighbours of position j are linked to each other.
  function DeleteWords(m: Memory, prv: Word, nxt: Word): Memory {
    m[nxt + 4 := prv][prv := nxt]
  }

  lemma DeleteRing(m: Memory, k: int, l: seq<int>, j: int, prv: Word, nxt: Word)
    requires 0 <= k < LIST_NUM && Linked(m, k, l) && 0 <= j < |l| && Gaps(Ring(k, l))
    requires prv == Ring(k, l)[j] && nxt == Ring(k, l)[j + 2]
    ensures Linked(DeleteWords(m, prv, nxt), k, l[..j] + l[j + 1..])
  {
    var m', r, l' := DeleteWords(m, prv, nxt), Ring(k, l), l[..j] + l[j + 1..];
    var r' := Ring(k, l');
    assert forall i | 0 <= i < |r'| :: r'[i] == if i <= j then r[i] else r[i + 1];
    forall i | 0 <= i <= |l'| ensures LinkAt(m', r', i) {
      assert i < j ==> LinkAt(m, r, i);
      assert i > j ==> LinkAt(m, r, i + 1);
    }
  }

  // ---------- the words represent the state ----------

  ghost predicate Rep(m: Memory, s: State) {
    Tagged(m, s.blocks, {}) && Walls(m, s.top) && AllLinked(m, s.lists)
  }

  lemma FreeNode(bs: Blocks, b: int)
    requires IsFree(bs, b)
    ensures LinkWord(bs, b) && LinkWord(bs, b + 4)
  {
  }

  // Members of bucket k, and its sentinel, are link words of no other ring.
  ghost predicate OwnNode(s: State, k: int, y: int) {
    y == 8 * k || (IsFree(s.blocks, y) && Bucket(s.blocks[y].size) == k)
  }

  lemma OtherRing(m: Memory, s: State, j: int, k: int, y: int, d: int, v: Word)
    requires Good(s) && 0 <= j < LIST_NUM && 0 <= k < LIST_NUM && j != k
    requires Linked(m, j, s.lists[j]) && OwnNode(s, k, y) && (d == 0 || d == 4)
    ensures Linked(m[y + d := v], j, s.lists[j])
  {
    forall x | x in Ring(j, s.lists[j]) ensures y + d != x && y + d != x + 4 {
      if x != 8 * j {
        assert x in s.lists[j];
        assert x != y && (x < y || y < x);
      }
    }
    OffRing(m, j, s.lists[j], y + d, v);
  }

  lemma InsertOthers(m: Memory, s: State, j: int, k: int, first: Word, b: Word)
    requires Good(s) && 0 <= j < LIST_NUM && 0 <= k < LIST_NUM && j != k
    requires Linked(m, j, s.lists[j]) && OwnNode(s, k, b) && OwnNode(s, k, first)
    ensures Linked(InsertWords(m, k, first, b), j, s.lists[j])
  {
    OtherRing(m, s, j, k, b, 0, first);
    OtherRing(m[b := first], s, j, k, b, 4, 8 * k);
    OtherRing(m[b := first][b + 4 := 8 * k], s, j, k, 8 * k, 0, b);
    OtherRing(m[b := first][b + 4 := 8 * k][8 * k := b], s, j, k, first, 4, b);
  }

  lemma DeleteOthers(m: Memory, s: State, j: int, k: int, prv: Word, nxt: Word)
    requires Good(s) && 0 <= j < LIST_NUM && 0 <= k < LIST_NUM && j != k
    requires Linked(m, j, s.lists[j]) && OwnNode(s, k, prv) && OwnNode(s, k, nxt)
    ensures Linked(DeleteWords(m, prv, nxt), j, s.lists[j])
  {
    OtherRing(m, s, j, k, nxt, 4, prv);
    OtherRing(m[nxt + 4 := prv], s, j, k, prv, 0, nxt);
  }

  lemma KeptTrans(m0: Memory, m1: Memory, m2: Memory, bs: Blocks)
    requires Kept(m0, m1, bs) && Kept(m1, m2, bs)
    ensures Kept(m0, m2, bs)
  {
    forall b | b in bs && bs[b].alloc ensures Same(m0, m2, b, End(bs, b) - 8) {
      assert Same(m0, m1, b, End(bs, b) - 8) && Same(m1, m2, b, End(bs, b) - 8);
    }
  }

  // Tags and walls hold, and no allocated payload has changed since m0.
  ghost predicate Intact(m0: Memory, m: Memory, s: State) {
    Tagged(m, s.blocks, {}) && Walls(m, s.top) && Kept(m0, m, s.blocks)
  }

  lemma NodeWrite(m0: Memory, m: Memory, s: State, k: int, y: int, d: int, v: Word)
    requires Good(s) && 0 <= k < LIST_NUM && OwnNode(s, k, y) && (d == 0 || d == 4)
    requires Intact(m0, m, s)
    ensures Intact(m0, m[y + d := v], s)
  {
    if IsFree(s.blocks, y) { FreeNode(s.blocks, y); }
    LinkWrite(m, s.blocks, s.top, {}, y + d, v);
    KeptTrans(m0, m, m[y + d := v], s.blocks);
  }

  lemma NodeWrites(m0: Memory, m: Memory, s: State, k: int, y: int, d: int, v: Word, y': int, d': int, v': Word)
    requires Good(s) && 0 <= k < LIST_NUM && OwnNode(s, k, y) && OwnNode(s, k, y')
    requires (d == 0 || d == 4) && (d' == 0 || d' == 4) && Intact(m0, m, s)
    ensures Intact(m0, m[y + d := v][y' + d' := v'], s)
  {
    NodeWrite(m0, m, s, k, y, d, v);
    NodeWrite(m0, m[y + d := v], s, k, y', d', v');
  }

  lemma InsertTags(m: Memory, s: State, k: int, first: Word, b: Word)
    requires Good(s) && 0 <= k < LIST_NUM && OwnNode(s, k, b) && OwnNode(s, k, first)
    requires Intact(m, m, s)
    ensures Intact(m, InsertWords(m, k, first, b), s)
  {
    NodeWrites(m, m, s, k, b, 0, first, b, 4, 8 * k);
    NodeWrites(m, m[b + 0 := first][b + 4 := 8 * k], s, k, 8 * k, 0, b, first, 4, b);
  }

  lemma DeleteTags(m: Memory, s: State, k: int, prv: Word, nxt: Word)
    requires Good(s) && 0 <= k < LIST_NUM && OwnNode(s, k, prv) && OwnNode(s, k, nxt)
    requires Intact(m, m, s)
    ensures Intact(m, DeleteWords(m, prv, nxt), s)
  {
    NodeWrite(m, m, s, k, nxt, 4, prv);
    NodeWrite(m, m[nxt + 4 := prv], s, k, prv, 0, nxt);
  }

  lemma RingOwn(s: State, k: int, i: int)
    requires Good(s) && 0 <= k < LIST_NUM && 0 <= i < |Ring(k, s.lists[k])|
    ensures OwnNode(s, k, Ring(k, s.lists[k])[i])
  {
    var l := s.lists[k];
    if 0 < i <= |l| { assert l[i - 1] in s.lists[k]; }
  }

  lemma InsertRep(m: Memory, s: State, b: Word, first: Word)
    requires Good(s) && Rep(m, s) && b in s.loose
    requires var k := Bucket(s.blocks[b].size); first == Ring(k, s.lists[k])[1]
    ensures var m' := InsertWords(m, Bucket(s.blocks[b].size), first, b);
      Rep(m', Enlist(s, b)) && Kept(m, m', s.blocks)
  {
    var k := Bucket(s.blocks[b].size);
    var m' := InsertWords(m, k, first, b);
    var s' := Enlist(s, b);
    RingOwn(s, k, 1);
    InsertTags(m, s, k, first, b);
    EnlistListed(s, b);
    assert Distinct(s'.lists[k]);
    RingGaps(s.blocks, s.top, k, [b] + s.lists[k]);
    assert Linked(m, k, s.lists[k]);
    InsertRing(m, k, s.lists[k], b, first);
    forall j | 0 <= j < LIST_NUM && j != k ensures Linked(m', j, s'.lists[j]) {
      assert Linked(m, j, s.lists[j]);
      InsertOthers(m, s, j, k, first, b);
    }
  }

  lemma {:induction false} WithoutAt(l: seq<int>, j: int)
    requires Distinct(l) && 0 <= j < |l|
    ensures Without(l, l[j]) == l[..j] + l[j + 1..]
  {
    if j == 0 {
    } else {
      WithoutAt(l[1..], j - 1);
      assert [l[0]] + l[1..][..j - 1] == l[..j] && l[1..][j..] == l[j + 1..];
    }
  }

  lemma DeleteRep(m: Memory, s: State, b: int, j: int, prv: Word, nxt: Word)
    requires Good(s) && Rep(m, s) && IsFree(s.blocks, b) && b !in s.loose
    requires var l := s.lists[Bucket(s.blocks[b].size)]; 0 <= j < |l| && l[j] == b
    requires var k := Bucket(s.blocks[b].size); prv == Ring(k, s.lists[k])[j] && nxt == Ring(k, s.lists[k])[j + 2]
    ensures var m' := DeleteWords(m, prv, nxt); Rep(m', Unlist(s, b)) && Kept(m, m', s.blocks)
  {
    var k := Bucket(s.blocks[b].size);
    var m' := DeleteWords(m, prv, nxt);
    var s' := Unlist(s, b);
    RingOwn(s, k, j);
    RingOwn(s, k, j + 2);
    DeleteTags(m, s, k, prv, nxt);
    WithoutAt(s.lists[k], j);
    assert Distinct(s.lists[k]);
    RingGaps(s.blocks, s.top, k, s.lists[k]);
    assert Linked(m, k, s.lists[k]);
    DeleteRing(m, k, s.lists[k], j, prv, nxt);
    forall i | 0 <= i < LIST_NUM && i != k ensures Linked(m', i, s'.lists[i]) {
      assert Linked(m, i, s.lists[i]);
      DeleteOthers(m, s, i, k, prv, nxt);
    }
  }

  // ---------- writes to boundary tags ----------

  function TagWords(m: Memory, b: int, size: int, w: Word): Memory {
    m[b - 4 := w][b + size - 8 := w]
  }

  // Rewriting the tags of one block disturbs no link, no wall, and no other tag or payload.
  lemma TagWrite(m: Memory, bs: Blocks, top: int, but: set<int>, b: int, w: Word)
    requires Shaped(bs, top) && Apart(bs) && b in bs && w == Pack(bs[b])
    requires Tagged(m, bs, but) && Walls(m, top)
    ensures var m' := TagWords(m, b, bs[b].size, w); Tagged(m', bs, but - {b}) && Walls(m', top)
  {
    var m' := TagWords(m, b, bs[b].size, w);
    forall c | c in bs && c !in but - {b} ensures TagAt(m', bs, c) {
      if c != b { assert TagAt(m, bs, c); assert c < b || b < c; }
    }
  }

  lemma TagWriteRing(m: Memory, bs: Blocks, top: int, k: int, l: seq<int>, b: int, w: Word)
    requires Shaped(bs, top) && Apart(bs) && b in bs && 0 <= k < LIST_NUM && InBlocks(l, bs) && Linked(m, k, l)
    ensures Linked(TagWords(m, b, bs[b].size, w), k, l)
  {
    forall x | x in Ring(k, l)
      ensures b - 4 != x && b - 4 != x + 4 && End(bs, b) - 8 != x && End(bs, b) - 8 != x + 4
    {
      if x != 8 * k { assert x in l; assert x < b || b < x || b == x; }
    }
    OffRing(m, k, l, b - 4, w);
    OffRing(m[b - 4 := w], k, l, End(bs, b) - 8, w);
  }

  lemma TagWriteLinks(m: Memory, bs: Blocks, top: int, lists: Lists, b: int, w: Word)
    requires Shaped(bs, top) && Apart(bs) && b in bs && AllLinked(m, lists)
    requires forall k | 0 <= k < LIST_NUM :: InBlocks(lists[k], bs)
    ensures AllLinked(TagWords(m, b, bs[b].size, w), lists)
  {
    var m' := TagWords(m, b, bs[b].size, w);
    forall k | 0 <= k < LIST_NUM ensures Linked(m', k, lists[k]) {
      assert Linked(m, k, lists[k]);
      TagWriteRing(m, bs, top, k, lists[k], b, w);
    }
  }

  lemma TagWriteKept(m: Memory, bs: Blocks, top: int, b: int, w: Word)
    requires Shaped(bs, top) && Apart(bs) && b in bs
    ensures Kept(m, TagWords(m, b, bs[b].size, w), bs)
  {
    var m' := TagWords(m, b, bs[b].size, w);
    forall c | c in bs && bs[c].alloc ensures Same(m, m', c, End(bs, c) - 8) {
      assert c < b || b < c || c == b;
    }
  }

  // ---------- the tag-writing steps keep the representation ----------

  lemma ListsInBlocks(s: State)
    requires Good(s)
    ensures forall k | 0 <= k < LIST_NUM :: InBlocks(s.lists[k], s.blocks)
  {
    forall k | 0 <= k < LIST_NUM ensures InBlocks(s.lists[k], s.blocks) {
      forall x | x in s.lists[k] ensures x in s.blocks {}
    }
  }

  // Only block b is new or changed in s', and its tags are written.
  lemma Retag(m: Memory, s: State, s': State, b: int, w: Word)
    requires Good(s') && Rep(m, s) && s'.top == s.top && s'.lists == s.lists
    requires b in s'.blocks && w == Pack(s'.blocks[b])
    requires forall c | c in s'.blocks && c != b :: c in s.blocks && s.blocks[c] == s'.blocks[c]
    ensures var m' := TagWords(m, b, s'.blocks[b].size, w); Rep(m', s') && Kept(m, m', s'.blocks)
  {
    var bs' := s'.blocks;
    forall c | c in bs' && c !in {b} ensures TagAt(m, bs', c) { assert TagAt(m, s.blocks, c); }
    ListsInBlocks(s');
    TagWrite(m, bs', s.top, {b}, b, w);
    TagWriteLinks(m, bs', s.top, s.lists, b, w);
    TagWriteKept(m, bs', s.top, b, w);
    assert {b} - {b} == {};
  }

  lemma CutRep(m: Memory, s: State, b: int, n: int, w1: Word, w2: Word)
    requires Good(s) && Rep(m, s) && b in s.loose && n % 8 == 0 && 16 <= n && 16 <= s.blocks[b].size - n
    requires w1 == n + 1 && w2 == s.blocks[b].size - n
    ensures var m' := TagWords(TagWords(m, b, n, w1), b + n, w2, w2);
      Rep(m', Cut(s, b, n)) && Kept(m, m', Cut(s, b, n).blocks)
  {
    var s' := Cut(s, b, n);
    var bs', top, m1 := s'.blocks, s.top, TagWords(m, b, n, w1);
    var m2 := TagWords(m1, b + n, w2, w2);
    CutGood(s, b, n);
    ListsInBlocks(s');
    forall c | c in bs' && c !in {b, b + n} ensures TagAt(m, bs', c) { assert TagAt(m, s.blocks, c); }
    TagWrite(m, bs', top, {b, b + n}, b, w1);
    TagWrite(m1, bs', top, {b, b + n} - {b}, b + n, w2);
    assert {b, b + n} - {b} - {b + n} == {};
    TagWriteLinks(m, bs', top, s.lists, b, w1);
    TagWriteLinks(m1, bs', top, s.lists, b + n, w2);
    TagWriteKept(m, bs', top, b, w1);
    TagWriteKept(m1, bs', top, b + n, w2);
    KeptTrans(m, m1, m2, bs');
  }

  // mem_sbrk appends words that may hold anything, and leaves the words below top alone.
  ghost predicate Grown(m: Memory, m': Memory, top: int) {
    forall a | a < top :: Rd(m', a) == Rd(m, a)
  }

  lemma GrownLinks(m: Memory, m': Memory, s: State)
    requires Good(s) && AllLinked(m, s.lists) && Grown(m, m', s.top - 4)
    ensures AllLinked(m', s.lists)
  {
    forall k | 0 <= k < LIST_NUM ensures Linked(m', k, s.lists[k]) {
      assert Linked(m, k, s.lists[k]);
      var r := Ring(k, s.lists[k]);
      forall i | 0 <= i <= |s.lists[k]| ensures LinkAt(m', r, i) {
        assert LinkAt(m, r, i);
        RingOwn(s, k, i);
        RingOwn(s, k, i + 1);
      }
    }
  }

  // extend_heap's three writes (mm.c:333-335)
  function AppendWords(m: Memory, top: int, n: Word): Memory {
    TagWords(m, top, n, n)[top + n - 4 := 1]
  }

  lemma AppendRep(m: Memory, m1: Memory, s: State, n: Word)
    requires Good(s) && Rep(m, s) && 16 <= n && n % 8 == 0 && Grown(m, m1, s.top)
    ensures var m' := AppendWords(m1, s.top, n); Rep(m', Append(s, n)) && Kept(m, m', s.blocks)
  {
    var s', m' := Append(s, n), AppendWords(m1, s.top, n);
    assert s.top !in s.blocks;
    assert Grown(m, m', s.top - 4);
    forall c | c in s'.blocks ensures TagAt(m', s'.blocks, c) {
      if c in s.blocks { assert TagAt(m, s.blocks, c); }
    }
    GrownLinks(m, m', s);
    forall c | c in s.blocks && s.blocks[c].alloc ensures Same(m, m', c, End(s.blocks, c) - 8) {}
  }

  // Fewer live blocks to keep.
  lemma KeptFewer(m: Memory, m': Memory, bs: Blocks, bs': Blocks)
    requires Kept(m, m', bs)
    requires forall b | b in bs' && bs'[b].alloc :: b in bs && bs[b] == bs'[b]
    ensures Kept(m, m', bs')
  {
    forall b | b in bs' && bs'[b].alloc ensures Same(m, m', b, End(bs', b) - 8) {
      assert Same(m, m', b, End(bs, b) - 8);
    }
  }

  // ---------- what the program reads ----------

  lemma EightMath(y: int)
    requires y % 8 == 0
    ensures y % 4 == 0 && (y + 4) % 4 == 0
  {
  }

  lemma NodeBounds(s: State, k: int, y: int)
    requires Good(s) && 0 <= k < LIST_NUM && OwnNode(s, k, y)
    ensures 0 <= y && y + 8 < s.top && y % 4 == 0 && (y + 4) % 4 == 0
  {
    if y == 8 * k {
      EightMath(8 * k);
    } else {
      assert AlignedAt(s.blocks, y);
      EightMath(y);
    }
  }

  lemma InsertReads(m: Memory, s: State, b: int)
    requires Good(s) && Rep(m, s) && b in s.loose
    ensures var k := Bucket(s.blocks[b].size); var first := Ring(k, s.lists[k])[1];
      && first != b && first != b + 4 && first + 4 != b && OwnNode(s, k, first) && OwnNode(s, k, b)
      && Rd(m, 8 * k) == first && Rd(m, first + 4) == 8 * k
  {
    var k := Bucket(s.blocks[b].size);
    RingOwn(s, k, 1);
    assert Linked(m, k, s.lists[k]);
    assert LinkAt(m, Ring(k, s.lists[k]), 0);
    assert s.lists[k] != [] ==> s.lists[k][0] in s.lists[k];
  }

  lemma DeleteReads(m: Memory, s: State, b: int) returns (j: int)
    requires Good(s) && Rep(m, s) && IsFree(s.blocks, b) && b !in s.loose
    ensures var k := Bucket(s.blocks[b].size); var l := s.lists[k];
      && 0 <= j < |l| && l[j] == b
      && Rd(m, b + 4) == Ring(k, l)[j] && Rd(m, b) == Ring(k, l)[j + 2]
      && Ring(k, l)[j + 2] != b && OwnNode(s, k, Ring(k, l)[j]) && OwnNode(s, k, Ring(k, l)[j + 2])
  {
    var k := Bucket(s.blocks[b].size);
    var l := s.lists[k];
    assert b in s.lists[k] && Distinct(s.lists[k]);
    j :| 0 <= j < |l| && l[j] == b;
    RingOwn(s, k, j);
    RingOwn(s, k, j + 2);
    assert Linked(m, k, s.lists[k]);
    assert LinkAt(m, Ring(k, l), j) && LinkAt(m, Ring(k, l), j + 1);
    assert Ring(k, l)[j + 1] == b;
    assert j + 1 < |l| ==> Ring(k, l)[j + 2] == l[j + 1];
  }

  lemma TagMath(b: int, size: int)
    requires b % 8 == 0 && size % 8 == 0
    ensures (b - 4) % 4 == 0 && (b + size - 8) % 4 == 0 && (b + size - 4) % 4 == 0
  {
  }

  lemma AddEights(a: int, b: int)
    requires a % 8 == 0 && b % 8 == 0
    ensures (a + b) % 8 == 0 && (a - b) % 8 == 0
  {
  }

  // Where the header and the footer of b are.
  lemma TagBounds(s: State, b: int)
    requires Good(s) && b in s.blocks
    ensures 0 <= b - 4 && b + 8 < End(s.blocks, b) <= s.top && b % 8 == 0 && s.blocks[b].size % 8 == 0
    ensures (b - 4) % 4 == 0 && (End(s.blocks, b) - 8) % 4 == 0 && (End(s.blocks, b) - 4) % 4 == 0
  {
    assert AlignedAt(s.blocks, b);
    TagMath(b, s.blocks[b].size);
  }

  lemma WordBelow(top: int)
    requires top % 8 == 0
    ensures (top - 4) % 4 == 0
  {
  }

  // The prologue and the epilogue
  lemma WallReads(m: Memory, s: State)
    requires FIRST <= s.top && Aligned(s.blocks, s.top) && Walls(m, s.top)
    ensures (s.top - 4) % 4 == 0 && Rd(m, 84) == 9 && Rd(m, 88) == 9 && Rd(m, s.top - 4) == 1
  {
    WordBelow(s.top);
  }

  // What the header of b says.
  lemma TagReads(m: Memory, s: State, b: int)
    requires Good(s) && Rep(m, s) && b in s.blocks
    ensures SizeOf(Rd(m, b - 4)) == s.blocks[b].size && AllocOf(Rd(m, b - 4)) == s.blocks[b].alloc
    ensures Rd(m, End(s.blocks, b) - 8) == Rd(m, b - 4)
  {
    assert TagAt(m, s.blocks, b) && AlignedAt(s.blocks, b);
    Unpack(s.blocks[b], Rd(m, b - 4));
  }

  // NEXT_BLKP(b) has a header: that of a block, or the epilogue.
  lemma NextReads(m: Memory, s: State, b: int)
    requires Good(s) && Rep(m, s) && b in s.blocks
    ensures AllocOf(Rd(m, End(s.blocks, b) - 4)) == !NextFree(s.blocks, b)
    ensures End(s.blocks, b) in s.blocks || Rd(m, End(s.blocks, b) - 4) == 1
  {
    assert HasNext(s.blocks, s.top, b);
    if End(s.blocks, b) in s.blocks { TagReads(m, s, End(s.blocks, b)); }
  }

  // PREV_BLKP(b), reached through the footer below b, is the block below or the prologue.
  lemma PrevReads(m: Memory, s: State, b: int)
    requires Good(s) && Rep(m, s) && b in s.blocks
    ensures var p := b - SizeOf(Rd(m, b - 8));
      && 88 <= p <= b - 8 && p % 8 == 0 && p + SizeOf(Rd(m, p - 4)) == b
      && AllocOf(Rd(m, b - 8)) == !PrevFree(s.blocks, b)
      && (PrevFree(s.blocks, b) ==> p == PredOf(s.blocks, b))
  {
    TagBounds(s, b);
    if b == FIRST {
      assert forall p | p in s.blocks :: End(s.blocks, p) != b;
    } else {
      assert HasPred(s.blocks, b);
      TagBounds(s, PredOf(s.blocks, b));
      TagReads(m, s, PredOf(s.blocks, b));
    }
  }

  // One step along a ring: the next node, and the header of a block there.
  lemma RingStep(m: Memory, s: State, k: int, i: int)
    requires Good(s) && Rep(m, s) && 0 <= k < LIST_NUM && 0 <= i <= |s.lists[k]|
    ensures var r := Ring(k, s.lists[k]);
      && Rd(m, r[i]) == r[i + 1] && OwnNode(s, k, r[i])
      && (r[i + 1] == 8 * k <==> i == |s.lists[k]|)
      && (i < |s.lists[k]| ==> r[i + 1] == s.lists[k][i] && IsFree(s.blocks, r[i + 1]))
  {
    assert Linked(m, k, s.lists[k]);
    assert LinkAt(m, Ring(k, s.lists[k]), i);
    RingOwn(s, k, i);
    if i < |s.lists[k]| { assert s.lists[k][i] in s.lists[k]; }
  }

  // What a walk reads at the block in position i of bucket k.
  lemma WalkReads(m: Memory, s: State, k: int, i: int)
    requires Good(s) && Rep(m, s) && 0 <= k < LIST_NUM && 0 <= i < |s.lists[k]|
    ensures var bp := s.lists[k][i];
      && Ring(k, s.lists[k])[i + 1] == bp && IsFree(s.blocks, bp) && Bucket(s.blocks[bp].size) == k
      && 4 <= bp && bp < s.top && bp % 4 == 0 && (bp - 4) % 4 == 0
      && SizeOf(Rd(m, bp - 4)) == s.blocks[bp].size && !AllocOf(Rd(m, bp - 4))
      && Rd(m, bp) == Ring(k, s.lists[k])[i + 2]
      && (Rd(m, bp) == 8 * k <==> i + 1 == |s.lists[k]|)
  {
    RingStep(m, s, k, i);
    RingStep(m, s, k, i + 1);
    TagBounds(s, s.lists[k][i]);
    TagReads(m, s, s.lists[k][i]);
  }

  // ---------- bytes of a word, least significant first ----------

  function ByteOf(w: int, i: nat): (v: int)
    ensures 0 <= v < 256
    decreases i
  {
    if i == 0 then w % 256 else ByteOf(w / 256, i - 1)
  }

  // w with its low n bytes taken from v
  function TakeBytes(w: int, v: int, n: nat): int
    decreases n
  {
    if n == 0 then w else v % 256 + 256 * TakeBytes(w / 256, v / 256, n - 1)
  }

  lemma {:induction false} TakeBytesSpec(w: int, v: int, n: nat, i: nat)
    ensures ByteOf(TakeBytes(w, v, n), i) == if i < n then ByteOf(v, i) else ByteOf(w, i)
    decreases n
  {
    if n == 0 {
    } else {
      var rest := TakeBytes(w / 256, v / 256, n - 1);
      assert (v % 256 + 256 * rest) / 256 == rest;
      if i > 0 { TakeBytesSpec(w / 256, v / 256, n - 1, i - 1); }
    }
  }

  lemma TakeBytesWord(w: Word, v: Word, n: nat)
    requires n < 4
    ensures 0 <= TakeBytes(w, v, n) < 0x1_0000_0000
  {
    var w1, v1 := w / 256, v / 256;
    var w2, v2 := w1 / 256, v1 / 256;
    assert TakeBytes(w2 / 256, v2 / 256, 0) == w2 / 256;
    assert n >= 1 ==> 0 <= TakeBytes(w2, v2, 1) < 0x1_0000;
    assert n >= 1 ==> 0 <= TakeBytes(w1, v1, n - 1) < 0x100_0000;
  }

  // Byte i of word j of the payload at b
  function Byte(m: Memory, b: int, j: int, i: nat): int {
    ByteOf(Rd(m, b + 4 * j), i)
  }

  ghost predicate WordCopied(m: Memory, p: int, m': Memory, q: int, j: int) {
    Rd(m', q + 4 * j) == Rd(m, p + 4 * j)
  }

  // The first n bytes at q in m' are those at p in m.
  ghost predicate Copied(m: Memory, p: int, m': Memory, q: int, n: int) {
    forall j, i | 0 <= j && 0 <= i < 4 && 4 * j + i < n :: Byte(m', q, j, i) == Byte(m, p, j, i)
  }

  ghost predicate LowBytes(w: int, v: int, r: int) {
    forall i: nat | i < r :: ByteOf(w, i) == ByteOf(v, i)
  }

  // k words, then r bytes of the word after them
  lemma CopiedInParts(m: Memory, m1: Memory, m2: Memory, p: int, q: int, k: int, r: int)
    requires 0 <= k && 0 <= r < 4
    requires forall j {:trigger WordCopied(m, p, m1, q, j)} | 0 <= j < k :: WordCopied(m, p, m1, q, j)
    requires r > 0 ==> Rd(m1, p + 4 * k) == Rd(m, p + 4 * k) && LowBytes(Rd(m2, q + 4 * k), Rd(m1, p + 4 * k), r)
    requires forall a | a != q + 4 * k :: Rd(m2, a) == Rd(m1, a)
    ensures Copied(m, p, m2, q, 4 * k + r)
  {
    forall j, i | 0 <= j && 0 <= i < 4 && 4 * j + i < 4 * k + r ensures Byte(m2, q, j, i) == Byte(m, p, j, i) {
      if j < k { assert WordCopied(m, p, m1, q, j); }
    }
  }

  // ---------- writes to the payload of a live block ----------

  ghost predicate OnlyPayload(m: Memory, m': Memory, bs: Blocks, b: int)
    requires b in bs
  {
    forall a | !(b <= a < End(bs, b) - 8) :: Rd(m', a) == Rd(m, a)
  }

  lemma PayloadRing(m: Memory, m': Memory, s: State, b: int, k: int)
    requires Good(s) && b in s.blocks && s.blocks[b].alloc && OnlyPayload(m, m', s.blocks, b)
    requires 0 <= k < LIST_NUM && Linked(m, k, s.lists[k])
    ensures Linked(m', k, s.lists[k])
  {
    var r := Ring(k, s.lists[k]);
    forall i | 0 <= i <= |s.lists[k]| ensures LinkAt(m', r, i) {
      assert LinkAt(m, r, i);
      RingOwn(s, k, i);
      RingOwn(s, k, i + 1);
      assert forall x | OwnNode(s, k, x) :: x + 8 <= b || End(s.blocks, b) <= x;
    }
  }

  // The program's users may write their own payload: the representation and other payloads stay.
  lemma PayloadWrite(m: Memory, m': Memory, s: State, b: int)
    requires Good(s) && Rep(m, s) && b in s.blocks && s.blocks[b].alloc && OnlyPayload(m, m', s.blocks, b)
    ensures Rep(m', s) && Kept(m, m', s.blocks - {b})
  {
    forall c | c in s.blocks && c !in {} ensures TagAt(m', s.blocks, c) {
      assert TagAt(m, s.blocks, c);
      assert c < b || b < c || c == b;
    }
    forall k | 0 <= k < LIST_NUM ensures Linked(m', k, s.lists[k]) {
      assert Linked(m, k, s.lists[k]);
      PayloadRing(m, m', s, b, k);
    }
    forall c | c in s.blocks - {b} && s.blocks[c].alloc ensures Same(m, m', c, End(s.blocks, c) - 8) {
      assert c < b || b < c;
    }
  }

  lemma KeptSameLive(m: Memory, m': Memory, bs: Blocks, bs': Blocks)
    requires Kept(m, m', bs) && forall b | b in Live(bs') :: b in Live(bs) && Live(bs)[b] == Live(bs')[b]
    ensures Kept(m, m', bs')
  {
    forall b | b in bs' && bs'[b].alloc ensures b in bs && bs[b] == bs'[b] {
      assert b in Live(bs');
    }
    KeptFewer(m, m', bs, bs');
  }

  lemma KeptAcrossExtend(m0: Memory, m1: Memory, m2: Memory, s: State, n: int)
    requires Good(s) && s.loose == {} && 16 <= n && n % 8 == 0
    requires Kept(m0, m1, s.blocks) && Kept(m1, m2, Extend(s, n).blocks)
    ensures Kept(m0, m2, s.blocks)
  {
    ExtendLive(s, n);
    KeptSameLive(m1, m2, Extend(s, n).blocks, s.blocks);
    KeptTrans(m0, m1, m2, s.blocks);
  }

  // The blocks of p and q live through malloc (s1) and, but for p, through free (s3).
  ghost predicate Moved(s0: State, s1: State, s3: State, p: int, q: int) {
    && p in Live(s0.blocks) && q !in Live(s0.blocks) && q in Live(s1.blocks)
    && Live(s1.blocks) == Live(s0.blocks)[q := Live(s1.blocks)[q]]
    && Live(s3.blocks) == Live(s1.blocks) - {p}
  }

  lemma CopyKept(m0: Memory, m1: Memory, m2: Memory, m3: Memory, s0: State, s1: State, s3: State, p: int, q: int)
    requires Moved(s0, s1, s3, p, q)
    requires Kept(m0, m1, s0.blocks) && Kept(m1, m2, s1.blocks - {q}) && Kept(m2, m3, s3.blocks)
    ensures Kept(m0, m3, s0.blocks - {p})
  {
    var bs := s0.blocks - {p};
    KeptSameLive(m0, m1, s0.blocks, bs);
    forall b | b in Live(bs) ensures b in Live(s1.blocks - {q}) && Live(s1.blocks - {q})[b] == Live(bs)[b] {
      assert b in Live(s0.blocks) && b in Live(s1.blocks) && Live(s1.blocks)[b] == Live(s0.blocks)[b];
    }
    KeptSameLive(m1, m2, s1.blocks - {q}, bs);
    KeptSameLive(m2, m3, s3.blocks, bs);
    KeptTrans(m0, m1, m2, bs);
    KeptTrans(m0, m2, m3, bs);
  }

  lemma CopyResult(m0: Memory, m1: Memory, m2: Memory, m3: Memory, s0: State, s1: State, s3: State,
                   p: int, q: int, n: int)
    requires Good(s1) && Moved(s0, s1, s3, p, q) && n + 8 <= s1.blocks[q].size && n <= s0.blocks[p].size - 8
    requires Kept(m0, m1, s0.blocks) && Kept(m2, m3, s3.blocks) && Copied(m1, p, m2, q, n)
    ensures Copied(m0, p, m3, q, n)
  {
    assert p in Live(s1.blocks) && q in Live(s3.blocks) && Live(s3.blocks)[q] == s1.blocks[q];
    assert Same(m0, m1, p, End(s0.blocks, p) - 8) && Same(m2, m3, q, End(s3.blocks, q) - 8);
    forall j, i | 0 <= j && 0 <= i < 4 && 4 * j + i < n ensures Byte(m3, q, j, i) == Byte(m0, p, j, i) {
      assert Byte(m2, q, j, i) == Byte(m1, p, j, i);
    }
  }

  lemma CopiedLess(m: Memory, p: int, m': Memory, q: int, n: int, n': int)
    requires Copied(m, p, m', q, n) && n' <= n
    ensures Copied(m, p, m', q, n')
  {
    forall j, i | 0 <= j && 0 <= i < 4 && 4 * j + i < n' ensures Byte(m', q, j, i) == Byte(m, p, j, i) {}
  }

  // The tags of the merged block complete the representation of the merged state.
  lemma MergeKept(m: Memory, m': Memory, s: State, b: int)
    requires Good(s) && s.loose == {b} && Kept(m, m', Merge(s, b).blocks)
    ensures Kept(m, m', s.blocks)
  {
    MergeLive(s, b);
    KeptFewer(m, m', Merge(s, b).blocks, s.blocks);
  }

  lemma MergeRep(m: Memory, s: State, b: int, size: Word)
    requires Good(s) && s.loose == {b} && Rep(m, Detach(s, b)) && size == RunEnd(s.blocks, b) - RunStart(s.blocks, b)
    ensures var m' := TagWords(m, RunStart(s.blocks, b), size, size); Rep(m', Merge(s, b)) && Kept(m, m', s.blocks)
  {
    var lo := RunStart(s.blocks, b);
    MergeReady(s, b);
    Retag(m, Detach(s, b), Merge(s, b), lo, size);
    MergeKept(m, TagWords(m, lo, size, size), s, b);
  }

  lemma KeptAcrossMerge(m0: Memory, m1: Memory, m2: Memory, s: State, b: int)
    requires Good(s) && s.loose == {b} && Kept(m0, m1, s.blocks) && Kept(m1, m2, Merge(s, b).blocks)
    ensures Kept(m0, m2, s.blocks)
  {
    MergeLive(s, b);
    KeptFewer(m1, m2, Merge(s, b).blocks, s.blocks);
    KeptTrans(m0, m1, m2, s.blocks);
  }

  // The link back to the block in position i from the node after it.
  lemma BackReads(m: Memory, s: State, k: int, i: int)
    requires Good(s) && Rep(m, s) && 0 <= k < LIST_NUM && 0 <= i < |s.lists[k]|
    ensures var next := Rd(m, s.lists[k][i]);
      0 <= next && next + 8 < s.top && (next + 4) % 4 == 0 && Rd(m, next + 4) == s.lists[k][i]
  {
    RingStep(m, s, k, i);
    RingStep(m, s, k, i + 1);
    RingOwn(s, k, i + 2);
    NodeBounds(s, k, Ring(k, s.lists[k])[i + 2]);
    assert Linked(m, k, s.lists[k]);
    assert LinkAt(m, Ring(k, s.lists[k]), i + 1);
  }
}
