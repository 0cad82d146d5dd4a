/** The byte-bounded LRU block cache.

    Its meaning is a list of key-value pairs, most recently used first. The class keeps a map of
    items, a list of their keys and a running size, and is proved to implement that list. */
module LruCache {
  import opened Basics

  type Bytes = seq<bv8>

  type Key = seq<bv8>    // a string is its bytes

  datatype Pair = Pair(key: Key, value: Bytes)

  // ---------------------------------------------------------------- meaning: a recency list

  function PairSize(p: Pair): nat {
    |p.key| + |p.value|
  }

  function Total(ps: seq<Pair>): nat {
    if ps == [] then 0 else Total(ps[..|ps| - 1]) + PairSize(ps[|ps| - 1])
  }

  /** Drops the least recently used pairs until the rest fits. */
  function Fit(ps: seq<Pair>, capacity: int): (r: seq<Pair>)
    ensures r <= ps
  {
    if ps == [] || Total(ps) <= capacity then ps else Fit(ps[..|ps| - 1], capacity)
  }

  function Find(ps: seq<Pair>, key: Key): (i: nat)
    ensures i <= |ps|
  {
    if ps == [] || ps[0].key == key then 0 else 1 + Find(ps[1..], key)
  }

  lemma {:induction false} FindIsFirst(ps: seq<Pair>, key: Key)
    ensures var i := Find(ps, key);
            (i < |ps| ==> ps[i].key == key) && forall j | 0 <= j < i :: ps[j].key != key
  {
    if ps != [] && ps[0].key != key {
      FindIsFirst(ps[1..], key);
    }
  }

  function ToFront<T>(s: seq<T>, i: nat): seq<T>
    requires i < |s|
  {
    [s[i]] + Cut(s, i)
  }

  function Without(ps: seq<Pair>, key: Key): seq<Pair> {
    var i := Find(ps, key);
    if i < |ps| then Cut(ps, i) else ps
  }

  function Lookup(ps: seq<Pair>, key: Key): Option<Bytes> {
    var i := Find(ps, key);
    if i < |ps| then Some(ps[i].value) else None
  }

  function Touch(ps: seq<Pair>, key: Key): seq<Pair> {
    var i := Find(ps, key);
    if i < |ps| then ToFront(ps, i) else ps
  }

  function Store(ps: seq<Pair>, key: Key, value: Bytes): seq<Pair> {
    [Pair(key, value)] + Without(ps, key)
  }

  predicate UniqueKeys(ps: seq<Pair>) {
    forall i, j | 0 <= i < j < |ps| :: ps[i].key != ps[j].key
  }

  /** What survives an eviction fits, and it is the longest prefix that does. */
  lemma {:induction false} FitIsLongest(ps: seq<Pair>, capacity: nat)
    ensures Total(Fit(ps, capacity)) <= capacity
    ensures forall k | |Fit(ps, capacity)| < k <= |ps| :: Total(ps[..k]) > capacity
  {
    if ps != [] && Total(ps) > capacity {
      var n := |ps| - 1;
      FitIsLongest(ps[..n], capacity);
      forall k | |Fit(ps, capacity)| < k <= |ps| ensures Total(ps[..k]) > capacity {
        if k <= n {
          assert ps[..n][..k] == ps[..k];
        } else {
          assert ps[..k] == ps;
        }
      }
    }
  }

  // ------------------------------------------------------------------------- whole runs

  datatype Op = Get(key: Key) | Put(key: Key, value: Bytes) | Clear

  function Step(ps: seq<Pair>, op: Op, capacity: int): seq<Pair> {
    match op
    case Get(key) => Touch(ps, key)
    case Put(key, value) => Fit(Store(ps, key, value), capacity)
    case Clear => []
  }

  function Run(ops: seq<Op>, capacity: int): seq<Pair> {
    if ops == [] then [] else Step(Run(ops[..|ops| - 1], capacity), ops[|ops| - 1], capacity)
  }

  /** The recency list of a cache that never evicts but counts the same hits. */
  function History(ops: seq<Op>, capacity: int): seq<Pair> {
    if ops == [] then []
    else
      var h := History(ops[..|ops| - 1], capacity);
      match ops[|ops| - 1]
      case Get(key) =>
        if Lookup(Run(ops[..|ops| - 1], capacity), key).Some? then Touch(h, key) else h
      case Put(key, value) => Store(h, key, value)
      case Clear => []
  }

  /** The value most recently put for a key and not cleared since. */
  function LastPut(ops: seq<Op>, key: Key): Option<Bytes> {
    if ops == [] then None
    else
      match ops[|ops| - 1]
      case Put(k, v) => if k == key then Some(v) else LastPut(ops[..|ops| - 1], key)
      case Clear => None
      case Get(_) => LastPut(ops[..|ops| - 1], key)
  }

  lemma WithoutUnique(ps: seq<Pair>, key: Key)
    requires UniqueKeys(ps)
    ensures UniqueKeys(Without(ps, key))
    ensures forall p | p in Without(ps, key) :: p in ps && p.key != key
    ensures forall p | p in ps && p.key != key :: p in Without(ps, key)
  {
    var i := Find(ps, key);
    FindIsFirst(ps, key);
    if i < |ps| {
      var w := Without(ps, key);
      assert forall j | 0 <= j < |w| :: w[j] == if j < i then ps[j] else ps[j + 1];
      forall p | p in ps && p.key != key ensures p in w {
        var j :| 0 <= j < |ps| && ps[j] == p;
        assert w[if j < i then j else j - 1] == p;
      }
    }
  }

  lemma {:induction false} FindPrefix(a: seq<Pair>, b: seq<Pair>, key: Key)
    requires a <= b
    ensures Find(a, key) < |a| ==> Find(b, key) == Find(a, key)
    ensures Find(a, key) == |a| ==> Find(b, key) >= |a|
  {
    if a != [] && a[0].key != key {
      FindPrefix(a[1..], b[1..], key);
    }
  }

  lemma WithoutPrefix(a: seq<Pair>, b: seq<Pair>, key: Key)
    requires a <= b
    ensures Without(a, key) <= Without(b, key)
  {
    FindPrefix(a, b, key);
  }

  lemma FrontUnique(p: Pair, ps: seq<Pair>)
    requires UniqueKeys(ps)
    ensures UniqueKeys([p] + Without(ps, p.key))
  {
    var w := Without(ps, p.key);
    WithoutUnique(ps, p.key);
    assert forall j | 0 <= j < |w| :: w[j] in w && w[j].key != p.key;
  }

  lemma {:induction false} UniqueHistory(ops: seq<Op>, capacity: int)
    ensures UniqueKeys(History(ops, capacity))
  {
    if ops != [] {
      var before, op := ops[..|ops| - 1], ops[|ops| - 1];
      var h := History(before, capacity);
      UniqueHistory(before, capacity);
      match op
      case Get(key) =>
        if Find(h, key) < |h| {
          FindIsFirst(h, key);
          FrontUnique(h[Find(h, key)], h);
        }
      case Put(key, value) => FrontUnique(Pair(key, value), h);
      case Clear =>
    }
  }

  /** After every run the cache is a prefix of the list it would be if nothing were evicted: what
      it keeps is always the most recently used. */
  lemma {:induction false} CacheIsPrefixOfHistory(ops: seq<Op>, capacity: int)
    ensures Run(ops, capacity) <= History(ops, capacity)
  {
    if ops != [] {
      var before, op := ops[..|ops| - 1], ops[|ops| - 1];
      var ps, h := Run(before, capacity), History(before, capacity);
      CacheIsPrefixOfHistory(before, capacity);
      if !op.Clear? {
        FindPrefix(ps, h, op.key);
        WithoutPrefix(ps, h, op.key);
      }
    }
  }

  lemma {:induction false} HistoryHoldsLatest(ops: seq<Op>, capacity: int, p: Pair)
    requires p in History(ops, capacity)
    ensures LastPut(ops, p.key) == Some(p.value)
  {
    var before, op := ops[..|ops| - 1], ops[|ops| - 1];
    var h := History(before, capacity);
    UniqueHistory(before, capacity);
    if op.Get? || op.Put? {
      FindIsFirst(h, op.key);
      WithoutUnique(h, op.key);
    }
    if !op.Put? || p.key != op.key {
      HistoryHoldsLatest(before, capacity, p);
    }
  }

  /** When the key was last put or found, counted from 1; 0 if never. */
  function LastUse(ops: seq<Op>, key: Key, capacity: int): nat {
    if ops == [] then 0
    else
      var before, op := ops[..|ops| - 1], ops[|ops| - 1];
      if op == Get(key) && Lookup(Run(before, capacity), key).Some? then |ops|
      else if op.Put? && op.key == key then |ops|
      else LastUse(before, key, capacity)
  }

  lemma {:induction false} UsedBefore(ops: seq<Op>, key: Key, capacity: int)
    ensures LastUse(ops, key, capacity) <= |ops|
  {
    if ops != [] {
      UsedBefore(ops[..|ops| - 1], key, capacity);
    }
  }

  /** Keys further down the list were used less recently. */
  ghost predicate ByRecency(ps: seq<Pair>, ops: seq<Op>, capacity: int) {
    forall i, j | 0 <= i < j < |ps| ::
      LastUse(ops, ps[i].key, capacity) > LastUse(ops, ps[j].key, capacity)
  }

  lemma CutRecency(ps: seq<Pair>, i: nat, ops: seq<Op>, capacity: int)
    requires i < |ps| && ByRecency(ps, ops, capacity)
    ensures ByRecency(Cut(ps, i), ops, capacity)
  {
    var w := Cut(ps, i);
    assert forall j | 0 <= j < |w| :: w[j] == ps[if j < i then j else j + 1];
  }

  /** A pair put in front of others, whose keys are not its own, as its key is used. */
  lemma FrontRecency(p: Pair, ps: seq<Pair>, before: seq<Op>, ops: seq<Op>, capacity: int)
    requires ByRecency(ps, before, capacity) && LastUse(ops, p.key, capacity) > |before|
    requires forall i | 0 <= i < |ps| ::
               LastUse(ops, ps[i].key, capacity) == LastUse(before, ps[i].key, capacity)
    ensures ByRecency([p] + ps, ops, capacity)
  {
    forall i | 0 <= i < |ps| ensures LastUse(ops, ps[i].key, capacity) <= |before| {
      UsedBefore(before, ps[i].key, capacity);
    }
  }

  lemma WithoutRecency(h: seq<Pair>, key: Key, before: seq<Op>, capacity: int)
    requires UniqueKeys(h) && ByRecency(h, before, capacity)
    ensures var w := Without(h, key);
            ByRecency(w, before, capacity) && forall j | 0 <= j < |w| :: w[j].key != key
  {
    var i, w := Find(h, key), Without(h, key);
    WithoutUnique(h, key);
    assert forall j | 0 <= j < |w| :: w[j] in w;
    if i < |h| {
      CutRecency(h, i, before, capacity);
    }
  }

  lemma UseRecency(p: Pair, h: seq<Pair>, before: seq<Op>, op: Op, capacity: int)
    requires UniqueKeys(h) && ByRecency(h, before, capacity)
    requires op == Put(p.key, p.value)
             || (op == Get(p.key) && Lookup(Run(before, capacity), p.key).Some?)
    ensures ByRecency([p] + Without(h, p.key), before + [op], capacity)
  {
    assert (before + [op])[..|before|] == before;
    WithoutRecency(h, p.key, before, capacity);
    FrontRecency(p, Without(h, p.key), before, before + [op], capacity);
  }

  lemma MissRecency(h: seq<Pair>, before: seq<Op>, op: Op, capacity: int)
    requires ByRecency(h, before, capacity)
    requires op.Get? && Lookup(Run(before, capacity), op.key).None?
    ensures ByRecency(h, before + [op], capacity)
  {
    assert (before + [op])[..|before|] == before;
  }

  lemma {:induction false} HistoryByRecency(ops: seq<Op>, capacity: int)
    ensures ByRecency(History(ops, capacity), ops, capacity)
  {
    if ops != [] {
      var before, op := ops[..|ops| - 1], ops[|ops| - 1];
      var h := History(before, capacity);
      assert ops == before + [op];
      HistoryByRecency(before, capacity);
      UniqueHistory(before, capacity);
      match op
      case Put(key, value) => UseRecency(Pair(key, value), h, before, op, capacity);
      case Get(key) =>
        if Lookup(Run(before, capacity), key).Some? {
          CacheIsPrefixOfHistory(before, capacity);
          FindPrefix(Run(before, capacity), h, key);
          FindIsFirst(h, key);
          UseRecency(h[Find(h, key)], h, before, op, capacity);
        } else {
          MissRecency(h, before, op, capacity);
        }
      case Clear =>
    }
  }

  /** After every run the cache is ordered by the last use of its keys, the latest first, and
      whatever was evicted was used less recently than everything that is kept. */
  lemma KeepsMostRecent(ops: seq<Op>, capacity: int)
    ensures var ps, h := Run(ops, capacity), History(ops, capacity);
            && ps <= h && ByRecency(ps, ops, capacity)
            && forall i, j | 0 <= i < |ps| && |ps| <= j < |h| ::
                 LastUse(ops, ps[i].key, capacity) > LastUse(ops, h[j].key, capacity)
  {
    CacheIsPrefixOfHistory(ops, capacity);
    HistoryByRecency(ops, capacity);
  }

  /** In every run, what is put is found by the next lookup if and only if it fits at all. */
  lemma PutIsHitIff(ops: seq<Op>, key: Key, value: Bytes, capacity: int)
    ensures Lookup(Run(ops + [Put(key, value)], capacity), key) ==
            if |key| + |value| <= capacity then Some(value) else None
  {
    var ps := Store(Run(ops, capacity), key, value);
    assert (ops + [Put(key, value)])[..|ops|] == ops;
    FitsFirst(ps, capacity);
  }

  lemma {:induction false} FitsFirst(ps: seq<Pair>, capacity: int)
    requires ps != []
    ensures Fit(ps, capacity) == [] <==> PairSize(ps[0]) > capacity
    ensures Fit(ps, capacity) != [] ==> Fit(ps, capacity)[0] == ps[0]
  {
    var n := |ps| - 1;
    if n == 0 {
      TotalOne(ps[0]);
      assert ps == [ps[0]];
    } else {
      assert ps == [ps[0]] + ps[1..];
      TotalFront(ps[0], ps[1..]);
      FitsFirst(ps[..n], capacity);
    }
  }

  /** In every run a hit returns the value most recently put for the key. */
  lemma HitReturnsLatest(ops: seq<Op>, capacity: int, key: Key)
    requires Lookup(Run(ops, capacity), key).Some?
    ensures Lookup(Run(ops, capacity), key) == LastPut(ops, key)
  {
    var ps := Run(ops, capacity);
    var p := ps[Find(ps, key)];
    FindIsFirst(ps, key);
    CacheIsPrefixOfHistory(ops, capacity);
    assert p in History(ops, capacity);
    HistoryHoldsLatest(ops, capacity, p);
  }

  lemma {:induction false} RunFits(ops: seq<Op>, capacity: nat)
    ensures Total(Run(ops, capacity)) <= capacity
  {
    if ops != [] {
      var before, op := ops[..|ops| - 1], ops[|ops| - 1];
      RunFits(before, capacity);
      match op
      case Get(key) => TotalTouch(Run(before, capacity), key);
      case Put(key, value) => FitIsLongest(Store(Run(before, capacity), key, value), capacity);
      case Clear =>
    }
  }

  lemma {:induction false} TotalAppend(a: seq<Pair>, b: seq<Pair>)
    ensures Total(a + b) == Total(a) + Total(b)
  {
    if b == [] {
      assert a + b == a;
    } else {
      TotalAppend(a, b[..|b| - 1]);
      assert (a + b)[..|a + b| - 1] == a + b[..|b| - 1];
    }
  }

  lemma TotalOne(p: Pair)
    ensures Total([p]) == PairSize(p)
  {
    assert [p][..0] == [];
  }

  lemma {:induction false} TotalCut(ps: seq<Pair>, i: nat)
    requires i < |ps|
    ensures Total(Cut(ps, i)) == Total(ps) - PairSize(ps[i])
  {
    var n := |ps| - 1;
    if i == n {
      assert Cut(ps, i) == ps[..n];
    } else {
      TotalCut(ps[..n], i);
      CutLast(ps, i);
    }
  }

  lemma CutLast(ps: seq<Pair>, i: nat)
    requires i < |ps| - 1
    ensures var n := |ps| - 1;
            |Cut(ps, i)| == n && Cut(ps, i)[..n - 1] == Cut(ps[..n], i) && Cut(ps, i)[n - 1] == ps[n]
  {
  }

  lemma TotalFront(p: Pair, ps: seq<Pair>)
    ensures Total([p] + ps) == PairSize(p) + Total(ps)
  {
    TotalAppend([p], ps);
    TotalOne(p);
  }

  lemma TotalTouch(ps: seq<Pair>, key: Key)
    ensures Total(Touch(ps, key)) == Total(ps)
  {
    var i := Find(ps, key);
    if i < |ps| {
      TotalCut(ps, i);
      TotalFront(ps[i], Cut(ps, i));
    }
  }

  // ------------------------------------------------------------------ the cache as an object

  datatype CacheItem = CacheItem(key: Key, value: Bytes, size: int)

  /** The map and the list hold the same keys, each once, and every item knows its key and size. */
  ghost predicate Bijection(items: map<Key, CacheItem>, list: seq<Key>) {
    && Elements(list) == items.Keys && |list| == |items.Keys|
    && (forall k | k in items :: items[k].key == k && items[k].size == |k| + |items[k].value|)
  }

  ghost function Pairs(items: map<Key, CacheItem>, list: seq<Key>): (ps: seq<Pair>)
    requires Elements(list) <= items.Keys
    ensures |ps| == |list|
    ensures forall i | 0 <= i < |list| ::
              list[i] in Elements(list) && ps[i] == Pair(list[i], items[list[i]].value)
  {
    assert forall i | 0 <= i < |list| :: list[i] in Elements(list);
    seq(|list|, i requires 0 <= i < |list| => Pair(list[i], items[list[i]].value))
  }

  lemma {:induction false} ElementsSize(list: seq<Key>)
    ensures |Elements(list)| <= |list|
  {
    if list != [] {
      var init, last := list[..|list| - 1], list[|list| - 1];
      ElementsSize(init);
      assert list == init + [last];
      assert Elements(list) == Elements(init) + {last};
    }
  }

  /** A list with as many keys as elements repeats none. */
  lemma NoRepeats(list: seq<Key>, i: nat, j: nat)
    requires |Elements(list)| == |list| && i < j < |list|
    ensures list[i] != list[j]
  {
    if list[i] == list[j] {
      var cut := Cut(list, j);
      assert list[i] == cut[i];
      assert list == list[..j] + [list[j]] + list[j + 1..];
      assert Elements(list) == Elements(cut);
      ElementsSize(cut);
    }
  }

  lemma FoundAt(items: map<Key, CacheItem>, list: seq<Key>, i: nat)
    requires Bijection(items, list) && i < |list|
    ensures Find(Pairs(items, list), list[i]) == i
  {
    var j := Find(Pairs(items, list), list[i]);
    FindIsFirst(Pairs(items, list), list[i]);
    if j < i {
      NoRepeats(list, j, i);
    }
  }

  lemma NotFound(items: map<Key, CacheItem>, list: seq<Key>, key: Key)
    requires Bijection(items, list) && key !in items
    ensures Find(Pairs(items, list), key) == |list|
  {
    FindIsFirst(Pairs(items, list), key);
    assert forall i | 0 <= i < |list| :: list[i] in Elements(list);
  }

  lemma ToFrontAt<T>(s: seq<T>, i: nat, j: nat)
    requires i < |s| && j < |s|
    ensures |ToFront(s, i)| == |s|
    ensures ToFront(s, i)[j] == s[if j == 0 then i else if j <= i then j - 1 else j]
  {
  }

  lemma ToFrontKeys(list: seq<Key>, i: nat)
    requires i < |list|
    ensures |ToFront(list, i)| == |list|
    ensures Elements(ToFront(list, i)) == Elements(list)
  {
    assert list == list[..i] + [list[i]] + list[i + 1..];
  }

  lemma ToFrontPairs(items: map<Key, CacheItem>, list: seq<Key>, i: nat)
    requires i < |list| && Elements(list) <= items.Keys && Elements(ToFront(list, i)) <= items.Keys
    ensures Pairs(items, ToFront(list, i)) == ToFront(Pairs(items, list), i)
  {
    forall j | 0 <= j < |list|
      ensures Pairs(items, ToFront(list, i))[j] == ToFront(Pairs(items, list), i)[j]
    {
      ToFrontAt(list, i, j);
      ToFrontAt(Pairs(items, list), i, j);
    }
  }

  /** Moving a key to the front of the list is what a hit means. */
  method MovedToFront(ghost items: map<Key, CacheItem>, list: seq<Key>, key: Key)
    returns (moved: seq<Key>)
    requires Bijection(items, list) && key in items
    ensures Bijection(items, moved) && moved != [] && moved[0] == key
    ensures Pairs(items, moved) == Touch(Pairs(items, list), key)
    ensures Total(Pairs(items, moved)) == Total(Pairs(items, list))
    ensures Lookup(Pairs(items, list), key) == Some(items[key].value)
  {
    assert key in Elements(list);
    var i :| 0 <= i < |list| && list[i] == key;
    ToFrontKeys(list, i);
    ToFrontPairs(items, list, i);
    FoundAt(items, list, i);
    TotalTouch(Pairs(items, list), key);
    moved := [list[i]] + Cut(list, i);
  }

  /** Overwriting the item at the front. */
  lemma ReplacedBijection(items: map<Key, CacheItem>, list: seq<Key>, item: CacheItem)
    requires Bijection(items, list) && item.key in items
    requires item.size == |item.key| + |item.value|
    ensures Bijection(items[item.key := item], list)
  {
    assert items[item.key := item].Keys == items.Keys;
  }

  lemma ReplacedPairs(items: map<Key, CacheItem>, list: seq<Key>, item: CacheItem)
    requires Bijection(items, list) && list != [] && list[0] == item.key
    requires Bijection(items[item.key := item], list)
    ensures Pairs(items[item.key := item], list) ==
            [Pair(item.key, item.value)] + Pairs(items, list)[1..]
  {
    forall j | 1 <= j < |list| ensures list[j] != item.key {
      NoRepeats(list, 0, j);
    }
  }

  /** Behind the front, a hit leaves what storing the key leaves. */
  lemma TouchTail(ps: seq<Pair>, key: Key)
    requires Find(ps, key) < |ps|
    ensures Touch(ps, key) != [] && Touch(ps, key)[1..] == Without(ps, key)
  {
  }

  lemma ReplacedTotal(p: Pair, ps: seq<Pair>)
    requires ps != []
    ensures Total([p] + ps[1..]) == Total(ps) - PairSize(ps[0]) + PairSize(p)
  {
    assert ps == [ps[0]] + ps[1..];
    TotalFront(p, ps[1..]);
    TotalFront(ps[0], ps[1..]);
  }

  lemma PushedBijection(items: map<Key, CacheItem>, list: seq<Key>, item: CacheItem)
    requires Bijection(items, list) && item.key !in items
    requires item.size == |item.key| + |item.value|
    ensures Bijection(items[item.key := item], [item.key] + list)
  {
    assert Elements([item.key] + list) == {item.key} + Elements(list);
    assert items[item.key := item].Keys == {item.key} + items.Keys;
    assert forall i | 0 <= i < |list| :: list[i] in Elements(list);
  }

  lemma PushedPairs(items: map<Key, CacheItem>, list: seq<Key>, item: CacheItem)
    requires Bijection(items, list) && item.key !in items
    requires Bijection(items[item.key := item], [item.key] + list)
    ensures Pairs(items[item.key := item], [item.key] + list) ==
            [Pair(item.key, item.value)] + Pairs(items, list)
  {
    assert forall i | 0 <= i < |list| :: list[i] in Elements(list);
  }

  lemma DroppedBijection(items: map<Key, CacheItem>, list: seq<Key>)
    requires Bijection(items, list) && list != []
    ensures var n := |list| - 1;
            list[n] in items && Bijection(items - {list[n]}, list[..n])
  {
    var n := |list| - 1;
    assert list[n] in Elements(list);
    DroppedKey(list);
    assert (items - {list[n]}).Keys == items.Keys - {list[n]};
  }

  lemma DroppedKey(list: seq<Key>)
    requires list != [] && |Elements(list)| == |list|
    ensures Elements(list[..|list| - 1]) == Elements(list) - {list[|list| - 1]}
  {
    var n := |list| - 1;
    forall j | 0 <= j < n ensures list[j] != list[n] {
      NoRepeats(list, j, n);
    }
    assert list == list[..n] + [list[n]];
  }

  lemma DroppedPairs(items: map<Key, CacheItem>, list: seq<Key>)
    requires Bijection(items, list) && list != []
    requires Bijection(items - {list[|list| - 1]}, list[..|list| - 1])
    ensures var n := |list| - 1;
            Pairs(items - {list[n]}, list[..n]) == Pairs(items, list)[..n]
  {
    var init := list[..|list| - 1];
    assert forall i | 0 <= i < |init| :: init[i] in Elements(init);
  }

  class LRUCache {
    const capacity: int
    var size: int
    var items: map<Key, CacheItem>
    var evictList: seq<Key>           // the keys of the linked list, front first

    ghost predicate Consistent()
      reads this
    {
      Bijection(items, evictList) && size == Total(Pairs(items, evictList))
    }

    ghost function Contents(): seq<Pair>
      reads this
      requires Consistent()
    {
      Pairs(items, evictList)
    }

    ghost predicate Valid()
      reads this
    {
      Consistent() && (capacity >= 0 ==> size <= capacity)
    }

    constructor (capacity: int)
      ensures Valid() && Contents() == [] && this.capacity == capacity
    {
      this.capacity := capacity;
      size, items, evictList := 0, map[], [];
    }

    method Get(key: Key) returns (r: Option<Bytes>)
      requires Valid()
      modifies this`evictList
      ensures Valid() && Contents() == Touch(old(Contents()), key)
      ensures r == Lookup(old(Contents()), key)
    {
      if key in items {
        evictList := MovedToFront(items, evictList, key);
        r := Some(items[key].value);
      } else {
        NotFound(items, evictList, key);
        r := None;
      }
    }

    method Put(key: Key, value: Bytes)
      requires Valid()
      modifies this
      ensures Valid() && Contents() == Fit(Store(old(Contents()), key, value), capacity)
    {
      var itemSize := |key| + |value|;
      if key in items {
        Update(key, value, itemSize);
        EvictOldest();
        return;
      }
      Insert(key, value, itemSize);
      EvictOldest();
    }

    /** The branch of Put for a key that is cached. */
    method Update(key: Key, value: Bytes, itemSize: int)
      requires Consistent() && key in items && itemSize == |key| + |value|
      modifies this
      ensures Consistent() && Contents() == Store(old(Contents()), key, value)
    {
      ghost var ps := Contents();
      evictList := MovedToFront(items, evictList, key);
      TouchTail(ps, key);
      OverwriteFront(CacheItem(key, value, itemSize), Without(ps, key));
    }

    method OverwriteFront(item: CacheItem, ghost rest: seq<Pair>)
      requires Consistent() && evictList != [] && evictList[0] == item.key && item.key in items
      requires item.size == |item.key| + |item.value| && Contents()[1..] == rest
      modifies this`size, this`items
      ensures Consistent() && Contents() == [Pair(item.key, item.value)] + rest
    {
      ReplacedBijection(items, evictList, item);
      ReplacedPairs(items, evictList, item);
      ReplacedTotal(Pair(item.key, item.value), Contents());
      size := size - items[item.key].size;
      items := items[item.key := item];
      size := size + item.size;
    }

    /** The branch of Put for a new key. */
    method Insert(key: Key, value: Bytes, itemSize: int)
      requires Consistent() && key !in items && itemSize == |key| + |value|
      modifies this
      ensures Consistent() && Contents() == Store(old(Contents()), key, value)
    {
      ghost var ps := Contents();
      NotFound(items, evictList, key);
      var item := CacheItem(key, value, itemSize);
      PushedBijection(items, evictList, item);
      PushedPairs(items, evictList, item);
      TotalFront(Pair(key, value), ps);
      evictList := [key] + evictList;
      items := items[key := item];
      size := size + itemSize;
    }

    method EvictOldest()
      requires Consistent()
      modifies this`size, this`items, this`evictList
      ensures Valid() && Contents() == Fit(old(Contents()), capacity)
    {
      while size > capacity
        invariant Consistent()
        invariant Fit(Contents(), capacity) == Fit(old(Contents()), capacity)
        decreases |evictList|
      {
        if evictList == [] {
          break;
        }
        RemoveBack();
      }
    }

    method RemoveBack()
      requires Consistent() && evictList != []
      modifies this`size, this`items, this`evictList
      ensures Consistent() && |evictList| == |old(evictList)| - 1
      ensures Contents() == old(Contents())[..|old(Contents())| - 1]
    {
      DroppedBijection(items, evictList);
      DroppedPairs(items, evictList);
      var key := evictList[|evictList| - 1];
      evictList := evictList[..|evictList| - 1];
      var item := items[key];
      items := items - {item.key};
      size := size - item.size;
    }

    method Clear()
      requires Valid()
      modifies this`size, this`items, this`evictList
      ensures Valid() && Contents() == []
    {
      items := map[];
      evictList := [];
      size := 0;
    }

    method Size() returns (r: int)
      requires Valid()
      ensures r == Total(Contents()) && (capacity >= 0 ==> r <= capacity)
    {
      r := size;
    }

    method Len() returns (r: int)
      requires Valid()
      ensures r == |Contents()|
    {
      r := |items.Keys|;
    }
  }
}
