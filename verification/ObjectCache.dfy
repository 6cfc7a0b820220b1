// The byte-bounded list of cached objects in proxy lab/proxylab-handout/cache.c,
// newest first, with eviction at the tail.
module ObjectCache {
  import opened Basics

  const MAX_CACHE_SIZE := 1049000
  const MAX_OBJECT_SIZE := 102400

  // strncpy(dst, src, n): everything after the first NUL becomes NUL
  function Strncpy(src: seq<Byte>, n: nat): (dst: seq<Byte>)
    requires n <= |src|
    ensures |dst| == n
  {
    if n == 0 then [] else if src[0] == 0 then seq(n, _ => 0) else [src[0]] + Strncpy(src[1..], n - 1)
  }

  // Byte i is copied unless a NUL comes before it.
  lemma {:induction false} StrncpyByte(src: seq<Byte>, n: nat, i: nat)
    requires i < n <= |src|
    ensures Strncpy(src, n)[i] == if 0 in src[..i] then 0 else src[i]
  {
    if i == 0 || src[0] == 0 {
      assert i > 0 ==> src[..i][0] == src[0];
    } else {
      StrncpyByte(src[1..], n - 1, i - 1);
      assert src[..i] == [src[0]] + src[1..][..i - 1];
    }
  }

  // After a NUL there are only NULs.
  ghost predicate OnlyPadding(src: seq<Byte>, n: nat)
    requires n <= |src|
  {
    forall i, j | 0 <= i < j < n && src[i] == 0 :: src[j] == 0
  }

  lemma PaddingTail(src: seq<Byte>, n: nat)
    requires 0 < n <= |src| && src[0] != 0
    ensures OnlyPadding(src, n) <==> OnlyPadding(src[1..], n - 1)
  {
    if OnlyPadding(src, n) {
      forall i, j | 0 <= i < j < n - 1 && src[1..][i] == 0 ensures src[1..][j] == 0 {
        assert src[i + 1] == 0 ==> src[j + 1] == 0;
      }
    }
    if OnlyPadding(src[1..], n - 1) {
      forall i, j | 0 <= i < j < n && src[i] == 0 ensures src[j] == 0 {
        assert src[1..][i - 1] == 0 ==> src[1..][j - 1] == 0;
      }
    }
  }

  // The stored copy is the object exactly if the object has no NUL followed by another byte.
  lemma {:induction false} StrncpyFaithful(src: seq<Byte>, n: nat)
    requires n <= |src|
    ensures Strncpy(src, n) == src[..n] <==> OnlyPadding(src, n)
  {
    if n > 0 && src[0] != 0 {
      var rest := src[1..];
      StrncpyFaithful(rest, n - 1);
      PaddingTail(src, n);
      assert src[..n] == [src[0]] + rest[..n - 1];
      assert Strncpy(src, n)[1..] == Strncpy(rest, n - 1) && src[..n][1..] == rest[..n - 1];
    } else if n > 0 {
      assert Strncpy(src, n) == src[..n] ==> forall j | 0 <= j < n :: src[..n][j] == 0;
    }
  }

  datatype Entry = Entry(tag: string, data: seq<Byte>)

  function Size(e: Entry): nat {
    |e.data|
  }

  function Total(es: seq<Entry>): nat {
    if es == [] then 0 else Total(es[..|es| - 1]) + Size(es[|es| - 1])
  }

  // Entries are dropped at the tail until the others fit.
  function Trim(es: seq<Entry>, room: int): (kept: seq<Entry>)
    ensures kept <= es
  {
    if es == [] || Total(es) <= room then es else Trim(es[..|es| - 1], room)
  }

  lemma TrimStep(es: seq<Entry>, room: int)
    requires es != [] && Total(es) > room
    ensures Trim(es, room) == Trim(es[..|es| - 1], room) && Total(es) == Total(es[..|es| - 1]) + Size(es[|es| - 1])
  {
  }

  // Dropping exactly the shortest tail that makes room: what is kept fits, and one entry more would not.
  lemma {:induction false} TrimShortest(es: seq<Entry>, room: int)
    requires 0 <= room
    ensures Total(Trim(es, room)) <= room
    ensures forall k | |Trim(es, room)| < k <= |es| :: Total(es[..k]) > room
  {
    if es == [] || Total(es) <= room {
    } else {
      var es' := es[..|es| - 1];
      TrimShortest(es', room);
      forall k | |Trim(es, room)| < k <= |es| ensures Total(es[..k]) > room {
        if k < |es| { assert es[..k] == es'[..k]; } else { assert es[..k] == es; }
      }
    }
  }

  // ---------- the cache as a bounded history ----------

  // add_object on entries, newest first
  function Add(es: seq<Entry>, e: Entry): seq<Entry> {
    [e] + Trim(es, MAX_CACHE_SIZE - Size(e))
  }

  // The cache after the additions of history (newest first), starting empty.
  function AfterAdds(history: seq<Entry>): seq<Entry> {
    if history == [] then [] else Add(AfterAdds(history[1..]), history[0])
  }

  lemma {:induction false} TotalCons(e: Entry, es: seq<Entry>)
    ensures Total([e] + es) == Size(e) + Total(es)
  {
    var all := [e] + es;
    if es != [] {
      TotalCons(e, es[..|es| - 1]);
      assert all[..|all| - 1] == [e] + es[..|es| - 1];
    } else {
      assert all[..0] == [];
    }
  }

  lemma {:induction false} TrimCons(e: Entry, es: seq<Entry>, room: int)
    requires Size(e) <= room
    ensures Trim([e] + es, room) == [e] + Trim(es, room - Size(e))
  {
    TotalCons(e, es);
    if es == [] || Total(es) <= room - Size(e) {
    } else {
      var all := [e] + es;
      assert all[..|all| - 1] == [e] + es[..|es| - 1];
      TrimCons(e, es[..|es| - 1], room);
    }
  }

  lemma {:induction false} TrimTwice(es: seq<Entry>, wide: int, narrow: int)
    requires narrow <= wide
    ensures Trim(Trim(es, wide), narrow) == Trim(es, narrow)
  {
    if es == [] || Total(es) <= wide {
    } else {
      TrimTwice(es[..|es| - 1], wide, narrow);
    }
  }

  // After any additions the cache holds the longest run of newest objects that fits, and nothing else.
  lemma {:induction false} NewestThatFit(history: seq<Entry>)
    requires forall i | 0 <= i < |history| :: Size(history[i]) <= MAX_OBJECT_SIZE
    ensures AfterAdds(history) == Trim(history, MAX_CACHE_SIZE)
  {
    if history == [] {
    } else {
      NewestThatFit(history[1..]);
      AddTrimmed(history[0], history[1..]);
      assert history == [history[0]] + history[1..];
    }
  }

  // The arguments of one call of add_object, and the entries of a sequence of calls, newest first
  datatype Addition = Addition(uri: string, data: seq<Byte>, length: nat)

  ghost predicate Storable(d: Addition) {
    d.length <= |d.data| && d.length <= MAX_OBJECT_SIZE
  }

  // The object as add_object stores it
  ghost function Stored(d: Addition): (e: Entry)
    requires Storable(d)
    ensures Size(e) <= MAX_OBJECT_SIZE
  {
    Entry(d.uri, Strncpy(d.data, d.length))
  }

  ghost function History(ds: seq<Addition>): (history: seq<Entry>)
    requires forall i | 0 <= i < |ds| :: Storable(ds[i])
    ensures forall i | 0 <= i < |history| :: Size(history[i]) <= MAX_OBJECT_SIZE
  {
    if ds == [] then [] else
      var n := |ds| - 1;
      assert Storable(ds[n]);
      [Stored(ds[n])] + History(ds[..n])
  }

  lemma AddTrimmed(e: Entry, older: seq<Entry>)
    requires Size(e) <= MAX_OBJECT_SIZE
    ensures Add(Trim(older, MAX_CACHE_SIZE), e) == Trim([e] + older, MAX_CACHE_SIZE)
  {
    TrimmedCons(e, older, MAX_CACHE_SIZE);
  }

  lemma TrimmedCons(e: Entry, older: seq<Entry>, max: int)
    requires Size(e) <= max
    ensures [e] + Trim(Trim(older, max), max - Size(e)) == Trim([e] + older, max)
  {
    TrimTwice(older, max, max - Size(e));
    TrimCons(e, older, max);
  }

  // ---------- the linked list ----------

  class CacheLine {
    var prev: CacheLine?
    var next: CacheLine?
    const entry: Entry
    const length: int

    constructor (entry: Entry)
      ensures prev == null && next == null && this.entry == entry && length == Size(entry)
    {
      prev, next := null, null;
      this.entry, length := entry, Size(entry);
    }
  }

  ghost predicate Forward(nodes: seq<CacheLine>, head: CacheLine?)
    reads nodes
  {
    && head == (if nodes == [] then null else nodes[0])
    && (forall i {:trigger nodes[i].next} | 0 <= i < |nodes| - 1 :: nodes[i].next == nodes[i + 1])
    && (nodes != [] ==> nodes[|nodes| - 1].next == null)
  }

  ghost predicate Backward(nodes: seq<CacheLine>, tail: CacheLine?)
    reads nodes
  {
    && tail == (if nodes == [] then null else nodes[|nodes| - 1])
    && (forall i {:trigger nodes[i].prev} | 1 <= i < |nodes| :: nodes[i].prev == nodes[i - 1])
    && (nodes != [] ==> nodes[0].prev == null)
  }

  ghost predicate Distinct(nodes: seq<CacheLine>) {
    forall i, j | 0 <= i < j < |nodes| :: nodes[i] != nodes[j]
  }

  function Without<T>(s: seq<T>, k: int): seq<T>
    requires 0 <= k < |s|
  {
    s[..k] + s[k + 1..]
  }

  lemma WithoutAt<T>(s: seq<T>, k: int)
    requires 0 <= k < |s|
    ensures |Without(s, k)| == |s| - 1
    ensures forall i | 0 <= i < |s| - 1 :: Without(s, k)[i] == if i < k then s[i] else s[i + 1]
  {
  }

  ghost predicate Hold(nodes: seq<CacheLine>, entries: seq<Entry>) {
    && |entries| == |nodes|
    && forall i | 0 <= i < |nodes| :: nodes[i].entry == entries[i] && nodes[i].length == Size(entries[i])
  }

  lemma HoldWithout(nodes: seq<CacheLine>, entries: seq<Entry>, k: int)
    requires Distinct(nodes) && Hold(nodes, entries) && 0 <= k < |nodes|
    ensures Distinct(Without(nodes, k)) && Hold(Without(nodes, k), Without(entries, k))
  {
    WithoutAt(nodes, k);
    WithoutAt(entries, k);
  }

  class Cache {
    var head: CacheLine?
    var tail: CacheLine?
    var remain: int
    ghost var nodes: seq<CacheLine>
    ghost var entries: seq<Entry> // what the lines hold, newest first

    ghost predicate Linked()
      reads this, nodes
    {
      Forward(nodes, head) && Backward(nodes, tail) && Distinct(nodes) && Hold(nodes, entries)
    }

    ghost predicate Valid()
      reads this, nodes
    {
      Linked() && 0 <= remain && remain + Total(entries) == MAX_CACHE_SIZE
    }

    // init_cache (cache.c:21-25)
    constructor ()
      ensures Valid() && entries == []
    {
      head, tail, remain, nodes, entries := null, null, MAX_CACHE_SIZE, [], [];
    }

    // insert_cache_line (cache.c:98-108); it never clears the line's prev link
    method Insert(target: CacheLine)
      requires Linked() && target !in nodes && (nodes == [] ==> target.next == null)
      requires target.length == Size(target.entry)
      modifies this`head, this`tail, this`nodes, this`entries, nodes, target
      ensures nodes == [target] + old(nodes) && entries == [target.entry] + old(entries)
      ensures Forward(nodes, head) && target.prev == old(target.prev)
      ensures Linked() <==> old(target.prev) == null
    {
      if head == null {
        head := target;
        tail := target;
      } else {
        target.next := head;
        head.prev := target;
        head := target;
      }
      nodes, entries := [target] + nodes, [target.entry] + entries;
    }

    // The writes of remove_cache_line (cache.c:134-145)
    method Unlink(target: CacheLine, ghost k: int)
      requires Linked() && 0 <= k < |nodes| && nodes[k] == target
      modifies this`head, this`tail, nodes
      ensures nodes == old(nodes) && entries == old(entries)
      ensures Forward(Without(nodes, k), head) && Backward(Without(nodes, k), tail)
      ensures target.prev == old(target.prev) && target.next == old(target.next)
    {
      WithoutAt(nodes, k);
      assert target.prev == if 0 < k then nodes[k - 1] else null;
      assert target.next == if k < |nodes| - 1 then nodes[k + 1] else null;
      if head == target {
        head := target.next;
      }
      if tail == target {
        tail := target.prev;
      }
      if target.prev != null {
        target.prev.next := target.next;
      }
      if target.next != null {
        target.next.prev := target.prev;
      }
    }

    // remove_cache_line (cache.c:132-146); the line keeps its own links
    method Remove(target: CacheLine, ghost k: int)
      requires Linked() && 0 <= k < |nodes| && nodes[k] == target
      modifies this`head, this`tail, this`nodes, this`entries, nodes
      ensures Linked() && nodes == Without(old(nodes), k) && entries == Without(old(entries), k)
      ensures target.prev == old(target.prev) && target.next == old(target.next)
    {
      Unlink(target, k);
      HoldWithout(nodes, entries, k);
      nodes, entries := Without(nodes, k), Without(entries, k);
    }

    // remove_cache_line on the tail
    method RemoveLast(target: CacheLine)
      requires Linked() && nodes != [] && target == tail
      modifies this`head, this`tail, this`nodes, this`entries, nodes
      ensures Linked() && nodes == old(nodes)[..|old(nodes)| - 1] && entries == old(entries)[..|old(entries)| - 1]
    {
      Remove(target, |nodes| - 1);
    }

    // The loop of evict_cache_line (cache.c:117-125)
    method EvictTail(size: int) returns (tempSize: int)
      requires Valid() && 0 <= size <= MAX_CACHE_SIZE
      modifies this`head, this`tail, this`nodes, this`entries, nodes
      ensures Linked() && nodes <= old(nodes) && tempSize + Total(entries) == MAX_CACHE_SIZE && size <= tempSize
      ensures entries == Trim(old(entries), MAX_CACHE_SIZE - size)
    {
      var cursor := tail;
      tempSize := remain;
      ghost var all, kept := nodes, Trim(entries, MAX_CACHE_SIZE - size);
      while cursor != null && tempSize < size
        invariant Linked() && nodes <= all && cursor == tail
        invariant tempSize + Total(entries) == MAX_CACHE_SIZE
        invariant kept == Trim(entries, MAX_CACHE_SIZE - size)
        decreases |nodes|
      {
        TrimStep(entries, MAX_CACHE_SIZE - size);
        tempSize := tempSize + cursor.length;
        RemoveLast(cursor);
        cursor := tail;
      }
    }

    // evict_cache_line (cache.c:115-127)
    method Evict(size: int)
      requires Valid() && 0 <= size <= MAX_CACHE_SIZE
      modifies this, nodes
      ensures Valid() && nodes <= old(nodes) && size <= remain
      ensures entries == Trim(old(entries), MAX_CACHE_SIZE - size)
    {
      var tempSize := EvictTail(size);
      remain := tempSize;
    }

    // The test at cache.c:86-88
    method MakeRoom(length: int)
      requires Valid() && 0 <= length <= MAX_CACHE_SIZE
      modifies this, nodes
      ensures Valid() && nodes <= old(nodes) && length <= remain
      ensures entries == Trim(old(entries), MAX_CACHE_SIZE - length)
    {
      if remain < length {
        Evict(length);
      }
    }

    // add_object (cache.c:69-93); object has at least length bytes
    method AddObject(uri: string, data: seq<Byte>, length: nat)
      requires Valid() && length <= |data| && length <= MAX_OBJECT_SIZE
      modifies this, nodes
      ensures Valid() && entries == Add(old(entries), Entry(uri, Strncpy(data, length)))
      ensures forall k | 0 <= k < |nodes| :: nodes[k] in old(nodes) || fresh(nodes[k])
    {
      var line := new CacheLine(Entry(uri, Strncpy(data, length)));
      AddLine(line);
    }

    // The rest of add_object, once the fields of the line are set (cache.c:84-90)
    method AddLine(line: CacheLine)
      requires Valid() && line !in nodes && line.prev == null && line.next == null
      requires line.length == Size(line.entry) <= MAX_OBJECT_SIZE
      modifies this, nodes, line
      ensures Valid() && entries == Add(old(entries), line.entry)
      ensures forall k | 0 <= k < |nodes| :: nodes[k] in old(nodes) || nodes[k] == line
    {
      ghost var e, kept := line.entry, Trim(entries, MAX_CACHE_SIZE - line.length);
      assert [e] + kept == Add(entries, e);
      MakeRoom(line.length);
      assert entries == kept;
      remain := remain - line.length;
      TotalCons(e, kept);
      Insert(line);
    }

    // The search of get_object (cache.c:31-53)
    method Find(uri: string) returns (cursor: CacheLine?, ghost k: int)
      requires Linked()
      ensures cursor == null ==> forall i | 0 <= i < |entries| :: entries[i].tag != uri
      ensures cursor != null ==> 0 <= k < |nodes| && nodes[k] == cursor && entries[k].tag == uri
      ensures cursor != null ==> forall i | 0 <= i < k :: entries[i].tag != uri
    {
      cursor, k := head, 0;
      while cursor != null
        invariant 0 <= k <= |nodes| && cursor == if k < |nodes| then nodes[k] else null
        invariant forall i | 0 <= i < k :: entries[i].tag != uri
        decreases |nodes| - k
      {
        if cursor.entry.tag == uri {
          return;
        }
        cursor := cursor.next;
        k := k + 1;
      }
    }

    // A found line is moved to the head (cache.c:57-58). The next links are right afterwards, but the line
    // keeps its old prev link, so the list is properly doubly linked exactly if the line was first already.
    method Promote(target: CacheLine, ghost k: int)
      requires Linked() && 0 <= k < |nodes| && nodes[k] == target
      modifies this`head, this`tail, this`nodes, this`entries, nodes
      ensures nodes == [target] + Without(old(nodes), k) && Forward(nodes, head)
      ensures Linked() <==> k == 0
    {
      Remove(target, k);
      Insert(target);
    }
  }

  // A client that makes any calls of add_object on a new cache, oldest first: the program's list is then the
  // longest run of newest objects that fits.
  method Replay(ds: seq<Addition>) returns (c: Cache)
    requires forall i | 0 <= i < |ds| :: Storable(ds[i])
    ensures fresh(c) && c.Valid() && c.entries == Trim(History(ds), MAX_CACHE_SIZE)
  {
    c := new Cache();
    for n := 0 to |ds|
      invariant fresh(c) && c.Valid() && forall k | 0 <= k < |c.nodes| :: fresh(c.nodes[k])
      invariant c.entries == AfterAdds(History(ds[..n]))
    {
      assert ds[..n + 1][..n] == ds[..n];
      c.AddObject(ds[n].uri, ds[n].data, ds[n].length);
    }
    assert ds[..|ds|] == ds;
    NewestThatFit(History(ds));
  }
}
