/** Measuring how shards are spread over nodes and moving some to even it out.

    A placement maps each shard to its primary node. Loads are real numbers. */
module Rebalance {
  import opened Basics

  type NodeId = string
  type ShardId = string
  type Placement = map<ShardId, NodeId>

  datatype Task = Task(source: NodeId, target: NodeId, shard: ShardId)

  const MAX_INT32: int := 0x7fff_ffff

  // ------------------------------------------------------------------------ measuring

  function On(shards: Placement, n: NodeId): set<ShardId> {
    set s | s in shards && shards[s] == n
  }

  function Count(shards: Placement, n: NodeId): nat {
    |On(shards, n)|
  }

  /** The number of shards per node, for every node that is the primary of one. */
  function Counts(shards: Placement): map<NodeId, nat> {
    map n | n in shards.Values :: Count(shards, n)
  }

  lemma CountPositive(shards: Placement, n: NodeId)
    requires n in shards.Values
    ensures Count(shards, n) > 0
  {
    var s :| s in shards && shards[s] == n;
    assert s in On(shards, n);
  }

  lemma CountAdded(shards: Placement, s: ShardId, p: NodeId, n: NodeId)
    requires s !in shards
    ensures Count(shards[s := p], n) == Count(shards, n) + if n == p then 1 else 0
  {
    assert On(shards[s := p], n) == On(shards, n) + if n == p then {s} else {};
  }

  lemma CountsAdded(shards: Placement, s: ShardId, p: NodeId)
    requires s !in shards
    ensures Counts(shards[s := p]) ==
            Counts(shards)[p := (if p in Counts(shards) then Counts(shards)[p] else 0) + 1]
  {
    var shards' := shards[s := p];
    forall n ensures Count(shards', n) == Count(shards, n) + if n == p then 1 else 0 {
      CountAdded(shards, s, p, n);
    }
    assert shards'.Values == shards.Values + {p} by {
      forall n | n in shards.Values ensures n in shards'.Values {
        var x :| x in shards && shards[x] == n;
        assert shards'[x] == n;
      }
      assert shards'[s] == p;
    }
    if p !in shards.Values {
      assert On(shards, p) == {};
    }
  }

  method CountShards(shards: Placement) returns (counts: map<NodeId, nat>)
    ensures counts == Counts(shards)
  {
    counts := map[];
    var rest := shards.Keys;
    ghost var done: Placement := map[];
    while rest != {}
      invariant rest <= shards.Keys
      invariant done == map s | s in shards && s !in rest :: shards[s]
      invariant counts == Counts(done)
    {
      var s :| s in rest;
      var p := shards[s];
      CountsAdded(done, s, p);
      counts := counts[p := (if p in counts then counts[p] else 0) + 1];
      rest := rest - {s};
      done := done[s := p];
    }
    assert done == shards;
  }

  ghost predicate IsSpread(counts: map<NodeId, nat>, max: int, min: int) {
    && (forall n | n in counts :: counts[n] <= max && min <= counts[n])
    && (exists n | n in counts :: counts[n] == max)
    && (min == MAX_INT32 || exists n | n in counts :: counts[n] == min)
    && min <= MAX_INT32
  }

  /** The measured imbalance; a smallest count of zero gives none. */
  function Imbalance(max: int, min: int): real {
    if min > 0 then (max - min) as real / min as real else 0.0
  }

  /** The shards whose primary is one of the given nodes. */
  ghost function OnAny(shards: Placement, ns: set<NodeId>): set<ShardId> {
    set s | s in shards && shards[s] in ns
  }

  lemma OnOneMore(shards: Placement, ns: set<NodeId>, n: NodeId)
    requires n !in ns
    ensures |OnAny(shards, ns + {n})| == |OnAny(shards, ns)| + Count(shards, n)
  {
    assert OnAny(shards, ns + {n}) == OnAny(shards, ns) + On(shards, n);
    assert OnAny(shards, ns) * On(shards, n) == {};
  }

  /** The loop over the counts: their sum is the number of shards. */
  method MeasureSpread(shards: Placement, counts: map<NodeId, nat>)
    returns (total: nat, max: int, min: int)
    requires counts == Counts(shards) && counts.Keys != {}
    ensures total == |shards.Keys| && IsSpread(counts, max, min) && min > 0
  {
    total, max, min := 0, 0, MAX_INT32;
    var rest := counts.Keys;
    while rest != {}
      invariant rest <= counts.Keys && 0 < min <= MAX_INT32
      invariant total == |OnAny(shards, counts.Keys - rest)|
      invariant forall n | n in counts && n !in rest :: min <= counts[n] <= max
      invariant (max == 0 && rest == counts.Keys) || exists n | n in counts :: counts[n] == max
      invariant min == MAX_INT32 || exists n | n in counts :: counts[n] == min
    {
      var n :| n in rest;
      CountPositive(shards, n);
      OnOneMore(shards, counts.Keys - rest, n);
      assert counts.Keys - rest + {n} == counts.Keys - (rest - {n});
      total := total + counts[n];
      if counts[n] > max { max := counts[n]; }
      if counts[n] < min { min := counts[n]; }
      rest := rest - {n};
    }
    assert counts.Keys - rest == counts.Keys;
    assert OnAny(shards, counts.Keys) == shards.Keys;
  }

  /** The average and the imbalance stay zero when there is nothing to measure. */
  method CalculateShardMetrics(shards: Placement)
    returns (counts: map<NodeId, nat>, loadBalance: real, imbalance: real,
             ghost max: int, ghost min: int)
    ensures counts == Counts(shards)
    ensures counts.Keys == {} ==> loadBalance == 0.0 && imbalance == 0.0
    ensures counts.Keys != {} ==>
              && loadBalance == Average(counts, |shards.Keys|)
              && IsSpread(counts, max, min) && imbalance == Imbalance(max, min)
  {
    counts := CountShards(shards);
    loadBalance, imbalance, max, min := 0.0, 0.0, 0, 0;
    if |counts.Keys| > 0 {
      var total, hi, lo := MeasureSpread(shards, counts);
      loadBalance := total as real / |counts.Keys| as real;
      if lo > 0 {
        imbalance := (hi - lo) as real / lo as real;
      }
      max, min := hi, lo;
    }
  }

  // ------------------------------------------------------------------------- choosing

  function Average(counts: map<NodeId, nat>, total: nat): real
    requires counts.Keys != {}
  {
    total as real / |counts.Keys| as real
  }

  lemma {:induction false} SpreadBounds(shards: Placement, ns: set<NodeId>, lo: int, hi: int)
    requires forall n | n in ns :: lo <= Count(shards, n) <= hi
    ensures lo * |ns| <= |OnAny(shards, ns)| <= hi * |ns|
    decreases |ns|
  {
    if ns == {} {
      assert OnAny(shards, ns) == {};
    } else {
      var n :| n in ns;
      var rest := ns - {n};
      SpreadBounds(shards, rest, lo, hi);
      OnOneMore(shards, rest, n);
      assert ns == rest + {n};
      OneMore(lo, |rest|);
      OneMore(hi, |rest|);
    }
  }

  lemma OneMore(x: int, k: int)
    ensures x * (k + 1) == x * k + x
  {
  }

  lemma QuotientBetween(total: int, n: int, lo: int, hi: int)
    requires n > 0 && lo * n <= total <= hi * n
    ensures lo as real <= total as real / n as real <= hi as real
    ensures total as real / n as real * n as real == total as real
  {
    var q := total as real / n as real;
    assert q * n as real == total as real;
    assert lo as real * n as real == (lo * n) as real && hi as real * n as real == (hi * n) as real;
  }

  /** The average share of all nodes that lead a shard makes up the number of shards, and it lies
      between the smallest and the largest count. */
  lemma AverageIsShare(shards: Placement, max: int, min: int)
    requires Counts(shards).Keys != {} && IsSpread(Counts(shards), max, min)
    ensures var average := Average(Counts(shards), |shards.Keys|);
            && average * |Counts(shards).Keys| as real == |shards.Keys| as real
            && min as real <= average <= max as real
  {
    var counts := Counts(shards);
    assert OnAny(shards, counts.Keys) == shards.Keys;
    SpreadBounds(shards, counts.Keys, min, max);
    QuotientBetween(|shards.Keys|, |counts.Keys|, min, max);
  }

  /** The imbalance says by what part of the smallest count the largest exceeds it. It is zero if and
      only if all counts are equal, as far as the smallest is measured at all. */
  lemma ImbalanceMeans(counts: map<NodeId, nat>, max: int, min: int)
    requires IsSpread(counts, max, min) && min > 0
    ensures min as real * (1.0 + Imbalance(max, min)) == max as real
    ensures Imbalance(max, min) == 0.0 <==>
            max <= MAX_INT32 && forall n | n in counts :: counts[n] == max
  {
    var q := (max - min) as real / min as real;
    assert q * min as real == (max - min) as real;
    assert min as real * (1.0 + q) == min as real + q * min as real;
  }

  predicate Over(count: nat, average: real, threshold: real)
    requires average > 0.0
  {
    count as real / average > 1.0 + threshold
  }

  predicate Under(count: nat, average: real, threshold: real)
    requires average > 0.0
  {
    !Over(count, average, threshold) && count as real / average < 1.0 - threshold
  }

  /** Overloaded means more than the average and the given part of it on top; underloaded, less than
      the average without that part. */
  lemma LoadMeans(count: nat, average: real, threshold: real)
    requires average > 0.0
    ensures Over(count, average, threshold) <==> count as real > average + threshold * average
    ensures Under(count, average, threshold) <==>
            count as real <= average + threshold * average
            && count as real < average - threshold * average
  {
    Compare(count as real, average, 1.0 + threshold);
    Compare(count as real, average, 1.0 - threshold);
    assert (1.0 + threshold) * average == average + threshold * average;
    assert (1.0 - threshold) * average == average - threshold * average;
  }

  lemma Compare(a: real, d: real, b: real)
    requires d > 0.0
    ensures a / d > b <==> a > b * d
    ensures a / d < b <==> a < b * d
  {
    var q := a / d;
    assert q * d == a;
    assert (q - b) * d == a - b * d;
  }

  /** Whatever the threshold, an overloaded node has more shards than an underloaded one. */
  lemma OverAboveUnder(a: nat, b: nat, average: real, threshold: real)
    requires average > 0.0 && Over(a, average, threshold) && Under(b, average, threshold)
    ensures a > b
  {
    if a <= b {
      Monotone(a as real, b as real, average);
    }
  }

  lemma Monotone(a: real, b: real, d: real)
    requires a <= b && d > 0.0
    ensures a / d <= b / d
  {
    assert b / d - a / d == (b - a) / d;
  }

  /** Tasks that move one shard each, between nodes that are all different, from a node with more
      shards to a node with fewer. */
  predicate Movable(shards: Placement, tasks: seq<Task>) {
    && (forall i | 0 <= i < |tasks| :: Sensible(shards, tasks[i]))
    && (forall i, j | 0 <= i < j < |tasks| ::
          tasks[i].source != tasks[j].source && tasks[i].target != tasks[j].target)
    && (forall i, j | 0 <= i < |tasks| && 0 <= j < |tasks| :: tasks[i].source != tasks[j].target)
  }

  predicate Sensible(shards: Placement, t: Task) {
    && t.shard in shards && shards[t.shard] == t.source
    && t.target in shards.Values
    && Count(shards, t.source) > Count(shards, t.target)
  }

  /** Splits the nodes by load, in whatever order the map yields them. */
  method Classify(counts: map<NodeId, nat>, average: real, threshold: real)
    returns (over: seq<NodeId>, under: seq<NodeId>)
    requires average > 0.0
    ensures Distinct(over) && Distinct(under)
    ensures forall n :: n in over <==> n in counts && Over(counts[n], average, threshold)
    ensures forall n :: n in under <==> n in counts && Under(counts[n], average, threshold)
  {
    over, under := [], [];
    var rest := counts.Keys;
    while rest != {}
      invariant rest <= counts.Keys && Distinct(over) && Distinct(under)
      invariant forall n :: n in over <==>
                  n in counts && n !in rest && Over(counts[n], average, threshold)
      invariant forall n :: n in under <==>
                  n in counts && n !in rest && Under(counts[n], average, threshold)
    {
      var n :| n in rest;
      var load := counts[n] as real / average;
      if load > 1.0 + threshold {
        over := over + [n];
      } else if load < 1.0 - threshold {
        under := under + [n];
      }
      rest := rest - {n};
    }
  }

  method FindShard(shards: Placement, n: NodeId) returns (r: Option<ShardId>)
    ensures r == None <==> n !in shards.Values
    ensures r.Some? ==> r.value in shards && shards[r.value] == n
  {
    var rest := shards.Keys;
    while rest != {}
      invariant rest <= shards.Keys
      invariant forall s | s in shards && s !in rest :: shards[s] != n
    {
      var s :| s in rest;
      if shards[s] == n {
        return Some(s);
      }
      rest := rest - {s};
    }
    r := None;
  }

  /** The nodes the threshold calls overloaded, and those it calls underloaded. */
  ghost function OverNodes(shards: Placement, threshold: real): set<NodeId> {
    var counts := Counts(shards);
    set n | n in counts && (AverageIsPositive(shards);
                            Over(counts[n], Average(counts, |shards.Keys|), threshold))
  }

  ghost function UnderNodes(shards: Placement, threshold: real): set<NodeId> {
    var counts := Counts(shards);
    set n | n in counts && (AverageIsPositive(shards);
                            Under(counts[n], Average(counts, |shards.Keys|), threshold))
  }

  /** One task for each of the first `k` pairs whose source leads a shard now, in order. */
  ghost predicate Pairs(shards: Placement, over: seq<NodeId>, under: seq<NodeId>, k: nat,
                        tasks: seq<Task>)
    requires k <= |over| && k <= |under|
  {
    if k == 0 then tasks == []
    else if over[k - 1] !in shards.Values then Pairs(shards, over, under, k - 1, tasks)
    else
      && tasks != []
      && Pairs(shards, over, under, k - 1, tasks[..|tasks| - 1])
      && var t := tasks[|tasks| - 1];
         t.source == over[k - 1] && t.target == under[k - 1]
         && t.shard in shards && shards[t.shard] == t.source
  }

  function Shorter(over: seq<NodeId>, under: seq<NodeId>): nat {
    if |over| <= |under| then |over| else |under|
  }

  /** Pairs the two lists until one runs out and looks for a shard for each pair. */
  method Pair(shards: Placement, over: seq<NodeId>, under: seq<NodeId>) returns (tasks: seq<Task>)
    ensures Pairs(shards, over, under, Shorter(over, under), tasks)
  {
    tasks := [];
    var i := 0;
    while i < |over| && i < |under|
      invariant 0 <= i <= |over| && i <= |under| && Pairs(shards, over, under, i, tasks)
    {
      var source, target := over[i], under[i];
      var s := FindShard(shards, source);
      if s.Some? {
        assert (tasks + [Task(source, target, s.value)])[..|tasks|] == tasks;
        tasks := tasks + [Task(source, target, s.value)];
      }
      i := i + 1;
    }
  }

  /** Every task belongs to a pair, later tasks to later pairs. */
  lemma {:induction false} PairsAt(shards: Placement, over: seq<NodeId>, under: seq<NodeId>, k: nat,
                                   tasks: seq<Task>, i: nat) returns (at: nat)
    requires k <= |over| && k <= |under| && Pairs(shards, over, under, k, tasks) && i < |tasks|
    ensures i <= at < k && tasks[i].source == over[at] && tasks[i].target == under[at]
    ensures tasks[i].shard in shards && shards[tasks[i].shard] == tasks[i].source
  {
    if over[k - 1] !in shards.Values || i < |tasks| - 1 {
      var rest := if over[k - 1] !in shards.Values then tasks else tasks[..|tasks| - 1];
      at := PairsAt(shards, over, under, k - 1, rest, i);
    } else {
      at := k - 1;
      PairsBound(shards, over, under, k, tasks);
    }
  }

  lemma {:induction false} PairsBound(shards: Placement, over: seq<NodeId>, under: seq<NodeId>,
                                      k: nat, tasks: seq<Task>)
    requires k <= |over| && k <= |under| && Pairs(shards, over, under, k, tasks)
    ensures |tasks| <= k
    ensures (forall n | n in over :: n in shards.Values) ==> |tasks| == k
  {
    if k > 0 {
      var rest := if over[k - 1] !in shards.Values then tasks else tasks[..|tasks| - 1];
      PairsBound(shards, over, under, k - 1, rest);
    }
  }

  /** Tasks whose nodes are all different, each for a shard that its source leads now. */
  predicate WellPaired(shards: Placement, tasks: seq<Task>) {
    && (forall i | 0 <= i < |tasks| ::
          tasks[i].shard in shards && shards[tasks[i].shard] == tasks[i].source)
    && (forall i, j | 0 <= i < j < |tasks| ::
          tasks[i].source != tasks[j].source && tasks[i].target != tasks[j].target)
    && (forall i, j | 0 <= i < |tasks| && 0 <= j < |tasks| :: tasks[i].source != tasks[j].target)
  }

  lemma {:induction false} PairsApart(shards: Placement, over: seq<NodeId>, under: seq<NodeId>,
                                      k: nat, tasks: seq<Task>)
    requires k <= |over| && k <= |under| && Pairs(shards, over, under, k, tasks)
    requires Distinct(over) && Distinct(under)
    ensures forall i, j | 0 <= i < j < |tasks| ::
              tasks[i].source != tasks[j].source && tasks[i].target != tasks[j].target
  {
    if k > 0 {
      var moved := over[k - 1] in shards.Values;
      var rest := if moved then tasks[..|tasks| - 1] else tasks;
      PairsApart(shards, over, under, k - 1, rest);
      if moved {
        forall i | 0 <= i < |rest|
          ensures rest[i].source != over[k - 1] && rest[i].target != under[k - 1]
        {
          var at := PairsAt(shards, over, under, k - 1, rest, i);
        }
      }
    }
  }

  lemma PairedWell(shards: Placement, over: seq<NodeId>, under: seq<NodeId>, k: nat,
                   tasks: seq<Task>)
    requires k <= |over| && k <= |under| && Pairs(shards, over, under, k, tasks)
    requires Distinct(over) && Distinct(under) && forall n | n in over :: n !in under
    ensures WellPaired(shards, tasks)
    ensures forall i | 0 <= i < |tasks| :: tasks[i].source in over && tasks[i].target in under
  {
    PairsApart(shards, over, under, k, tasks);
    forall i | 0 <= i < |tasks|
      ensures tasks[i].shard in shards && shards[tasks[i].shard] == tasks[i].source
      ensures tasks[i].source in over && tasks[i].target in under
    {
      var at := PairsAt(shards, over, under, k, tasks, i);
    }
  }

  /** The loads are those of the placement when it was measured; the shards to move are looked up in
      the placement as it is now. One task per pair whose source still leads a shard. */
  method GenerateRebalanceTasks(measured: Placement, shards: Placement, threshold: real)
    returns (tasks: seq<Task>, ghost over: seq<NodeId>, ghost under: seq<NodeId>)
    ensures Distinct(over) && forall n :: n in over <==> n in OverNodes(measured, threshold)
    ensures Distinct(under) && forall n :: n in under <==> n in UnderNodes(measured, threshold)
    ensures Pairs(shards, over, under, Shorter(over, under), tasks) && WellPaired(shards, tasks)
    ensures measured == shards ==> Movable(shards, tasks) && |tasks| == Shorter(over, under)
  {
    var counts := CountShards(measured);
    if counts.Keys == {} {
      return [], [], [];
    }
    AverageIsPositive(measured);
    var average := Average(counts, |measured.Keys|);
    var high, low := Classify(counts, average, threshold);
    tasks := Pair(shards, high, low);
    over, under := high, low;
    PairedWell(shards, high, low, Shorter(high, low), tasks);
    PairsBound(shards, high, low, Shorter(high, low), tasks);
    forall n, m | n in high && m in low ensures Count(measured, n) > Count(measured, m) {
      OverAboveUnder(counts[n], counts[m], average, threshold);
    }
  }

  lemma AverageIsPositive(shards: Placement)
    requires Counts(shards).Keys != {}
    ensures Average(Counts(shards), |shards.Keys|) > 0.0
  {
    var n :| n in Counts(shards);
    CountPositive(shards, n);
    var s :| s in On(shards, n);
    assert s in shards.Keys;
  }

  // ------------------------------------------------------------------------- applying

  /** A finished migration makes its target the primary of the shard. */
  function Apply(shards: Placement, t: Task): Placement {
    shards[t.shard := t.target]
  }

  function ApplyAll(shards: Placement, tasks: seq<Task>): Placement
    decreases |tasks|
  {
    if tasks == [] then shards else ApplyAll(Apply(shards, tasks[0]), tasks[1..])
  }

  lemma OnMoved(shards: Placement, s: ShardId, p: NodeId, n: NodeId)
    requires s in shards && shards[s] != p
    ensures On(shards[s := p], n) ==
            if n == shards[s] then On(shards, n) - {s}
            else if n == p then On(shards, n) + {s}
            else On(shards, n)
  {
  }

  lemma CountApplied(shards: Placement, t: Task, n: NodeId)
    requires Sensible(shards, t)
    ensures Count(Apply(shards, t), n) ==
            if n == t.source then Count(shards, n) - 1
            else if n == t.target then Count(shards, n) + 1
            else Count(shards, n)
  {
    MovedCount(shards, t, n);
  }

  lemma InValuesIff(shards: Placement, n: NodeId)
    ensures n in shards.Values <==> Count(shards, n) > 0
  {
    if n in shards.Values {
      CountPositive(shards, n);
    } else {
      assert On(shards, n) == {};
    }
  }

  /** Moving one shard takes one from the count of the source and adds one to the target's; no
      node appears or disappears. */
  lemma CountsApplied(shards: Placement, t: Task)
    requires Sensible(shards, t)
    ensures t.source in Counts(shards) && t.target in Counts(shards)
    ensures Counts(Apply(shards, t)) ==
            Counts(shards)[t.source := Counts(shards)[t.source] - 1]
                          [t.target := Counts(shards)[t.target] + 1]
  {
    CountPositive(shards, t.target);
    forall n
      ensures n in Apply(shards, t).Values <==> n in shards.Values
      ensures Count(Apply(shards, t), n) ==
              if n == t.source then Count(shards, n) - 1
              else if n == t.target then Count(shards, n) + 1
              else Count(shards, n)
    {
      CountApplied(shards, t, n);
      InValuesIff(shards, n);
      InValuesIff(Apply(shards, t), n);
    }
  }

  lemma MovableRest(shards: Placement, tasks: seq<Task>)
    requires Movable(shards, tasks) && tasks != []
    ensures Movable(Apply(shards, tasks[0]), tasks[1..])
  {
    var t, rest := tasks[0], tasks[1..];
    CountsApplied(shards, t);
    forall i | 0 <= i < |rest| ensures Sensible(Apply(shards, t), rest[i]) {
      var u := tasks[i + 1];
      assert rest[i] == u;
      CountApplied(shards, t, u.source);
      CountApplied(shards, t, u.target);
      assert u.target in Counts(Apply(shards, t));
    }
  }

  /** The sum of the squared counts, over the nodes in a given order. */
  function SumOfSquares(order: seq<NodeId>, counts: map<NodeId, nat>): nat
    requires forall n | n in order :: n in counts
  {
    if order == [] then 0
    else
      var c := counts[order[|order| - 1]];
      SumOfSquares(order[..|order| - 1], counts) + c * c
  }

  lemma {:induction false} SquaresUpdated(order: seq<NodeId>, counts: map<NodeId, nat>, k: NodeId,
                                          c: nat)
    requires Distinct(order) && (forall n | n in order :: n in counts) && k in counts
    ensures SumOfSquares(order, counts[k := c]) == SumOfSquares(order, counts) +
            if k in order then c * c - counts[k] * counts[k] else 0
  {
    if order != [] {
      var init, last := order[..|order| - 1], order[|order| - 1];
      assert order == init + [last];
      SquaresUpdated(init, counts, k, c);
    }
  }

  /** The sum of the counts, over the nodes in a given order. */
  function Sum(order: seq<NodeId>, counts: map<NodeId, nat>): nat
    requires forall n | n in order :: n in counts
  {
    if order == [] then 0
    else Sum(order[..|order| - 1], counts) + counts[order[|order| - 1]]
  }

  lemma {:induction false} SumUpdated(order: seq<NodeId>, counts: map<NodeId, nat>, k: NodeId,
                                      c: nat)
    requires Distinct(order) && (forall n | n in order :: n in counts) && k in counts
    ensures Sum(order, counts[k := c]) == Sum(order, counts) +
            if k in order then c - counts[k] else 0
  {
    if order != [] {
      var init, last := order[..|order| - 1], order[|order| - 1];
      assert order == init + [last];
      SumUpdated(init, counts, k, c);
    }
  }

  lemma SquareUp(y: int)
    ensures (y + 1) * (y + 1) - y * y == 2 * y + 1
  {
    assert (y + 1) * (y + 1) == y * y + 2 * y + 1;
  }

  lemma SquaresUp(order: seq<NodeId>, counts: map<NodeId, nat>, k: NodeId)
    requires Distinct(order) && (forall n | n in order :: n in counts) && k in order
    ensures SumOfSquares(order, counts[k := counts[k] + 1]) ==
            SumOfSquares(order, counts) + 2 * counts[k] + 1
  {
    SquaresUpdated(order, counts, k, counts[k] + 1);
    SquareUp(counts[k]);
  }

  lemma SquaresDown(order: seq<NodeId>, counts: map<NodeId, nat>, k: NodeId)
    requires Distinct(order) && (forall n | n in order :: n in counts) && k in order && counts[k] > 0
    ensures SumOfSquares(order, counts[k := counts[k] - 1]) + 2 * counts[k] ==
            SumOfSquares(order, counts) + 1
  {
    SquaresUpdated(order, counts, k, counts[k] - 1);
    SquareUp(counts[k] - 1);
  }

  /** One more for the target, one less for the source. */
  lemma SquaresMoved(order: seq<NodeId>, a: map<NodeId, nat>, source: NodeId, target: NodeId,
                     b: map<NodeId, nat>)
    requires source in a && target in a && source != target && a[source] > 0
    requires b == a[source := a[source] - 1][target := a[target] + 1] && Enumerates(order, a)
    ensures SumOfSquares(order, b) + 2 * a[source] == SumOfSquares(order, a) + 2 * a[target] + 2
  {
    SquaresDown(order, a, source);
    SquaresUp(order, a[source := a[source] - 1], target);
  }

  ghost predicate Enumerates(order: seq<NodeId>, counts: map<NodeId, nat>) {
    Distinct(order) && forall n :: n in order <==> n in counts
  }

  predicate AtMost(counts: map<NodeId, nat>, hi: int) {
    forall n | n in counts :: counts[n] <= hi
  }

  predicate AtLeast(counts: map<NodeId, nat>, lo: int) {
    forall n | n in counts :: lo <= counts[n]
  }

  /** `b` has the nodes and the total of `a` and is spread no worse: every bound on the counts of
      `a` bounds those of `b`, and the sum of squares is not larger. */
  ghost predicate NoWorse(a: map<NodeId, nat>, b: map<NodeId, nat>) {
    && a.Keys == b.Keys
    && (forall hi: int :: AtMost(a, hi) ==> AtMost(b, hi))
    && (forall lo: int :: AtLeast(a, lo) ==> AtLeast(b, lo))
    && (forall order | Enumerates(order, a) ::
          Sum(order, b) == Sum(order, a) && SumOfSquares(order, b) <= SumOfSquares(order, a))
  }

  lemma NoWorseTransitive(a: map<NodeId, nat>, b: map<NodeId, nat>, c: map<NodeId, nat>)
    requires NoWorse(a, b) && NoWorse(b, c)
    ensures NoWorse(a, c)
  {
    forall order | Enumerates(order, a)
      ensures Sum(order, c) == Sum(order, a) && SumOfSquares(order, c) <= SumOfSquares(order, a)
    {
      assert Enumerates(order, b);
    }
  }

  lemma MoveIsNoWorse(a: map<NodeId, nat>, source: NodeId, target: NodeId, b: map<NodeId, nat>)
    requires source in a && target in a && a[source] > a[target]
    requires b == a[source := a[source] - 1][target := a[target] + 1]
    ensures NoWorse(a, b)
  {
    forall order | Enumerates(order, a)
      ensures Sum(order, b) == Sum(order, a) && SumOfSquares(order, b) <= SumOfSquares(order, a)
    {
      SumUpdated(order, a, source, a[source] - 1);
      SumUpdated(order, a[source := a[source] - 1], target, a[target] + 1);
      SquaresMoved(order, a, source, target, b);
    }
  }

  lemma FirstIsNoWorse(shards: Placement, t: Task)
    requires Sensible(shards, t)
    ensures NoWorse(Counts(shards), Counts(Apply(shards, t)))
    ensures Apply(shards, t).Keys == shards.Keys
  {
    CountsApplied(shards, t);
    MoveIsNoWorse(Counts(shards), t.source, t.target, Counts(Apply(shards, t)));
  }

  /** Applying all tasks keeps the shards, the nodes and the total, never raises the largest
      count, never lowers the smallest and never raises the sum of squares. */
  lemma {:induction false} RebalancingIsNoWorse(shards: Placement, tasks: seq<Task>)
    requires Movable(shards, tasks)
    ensures ApplyAll(shards, tasks).Keys == shards.Keys
    ensures NoWorse(Counts(shards), Counts(ApplyAll(shards, tasks)))
    decreases |tasks|
  {
    if tasks != [] {
      var next := Apply(shards, tasks[0]);
      FirstIsNoWorse(shards, tasks[0]);
      MovableRest(shards, tasks);
      RebalancingIsNoWorse(next, tasks[1..]);
      NoWorseTransitive(Counts(shards), Counts(next), Counts(ApplyAll(next, tasks[1..])));
    }
  }

  lemma {:induction false} Enumeration(counts: map<NodeId, nat>, left: set<NodeId>)
    returns (order: seq<NodeId>)
    requires left <= counts.Keys
    ensures Distinct(order) && forall n :: n in order <==> n in left
    decreases |left|
  {
    if left == {} {
      order := [];
    } else {
      var n :| n in left;
      var rest := Enumeration(counts, left - {n});
      order := rest + [n];
    }
  }

  /** A move between two nodes leaves the spread no worse if and only if the target leads a shard and
      the source leads more: what a measurement that is out of date does not guarantee. */
  lemma MoveIsNoWorseIff(shards: Placement, t: Task)
    requires t.shard in shards && shards[t.shard] == t.source && t.source != t.target
    ensures NoWorse(Counts(shards), Counts(Apply(shards, t))) <==> Sensible(shards, t)
  {
    if Sensible(shards, t) {
      FirstIsNoWorse(shards, t);
    } else if NoWorse(Counts(shards), Counts(Apply(shards, t))) {
      SameMembers(shards, t);
      CountsMoved(shards, t);
      var order := Enumeration(Counts(shards), Counts(shards).Keys);
      SquaresMoved(order, Counts(shards), t.source, t.target, Counts(Apply(shards, t)));
    }
  }

  /** Three shards on one node, one on the other. */
  function Uneven(a: NodeId, b: NodeId, s: ShardId, p: ShardId, q: ShardId, r: ShardId): Placement {
    map[s := a, p := a, q := a, r := b]
  }

  lemma UnevenCounts(a: NodeId, b: NodeId, s: ShardId, p: ShardId, q: ShardId, r: ShardId)
    requires a != b && s != p && s != q && s != r && p != q && p != r && q != r
    ensures Counts(Uneven(a, b, s, p, q, r)) == map[a := 3, b := 1]
    ensures |Uneven(a, b, s, p, q, r).Keys| == 4
  {
    var shards := Uneven(a, b, s, p, q, r);
    assert On(shards, a) == {s, p, q} && On(shards, b) == {r};
    assert shards[s] == a && shards[r] == b;
    assert shards.Values == {a, b};
    assert shards.Keys == {s, p, q, r};
  }

  /** Of two nodes, one that leads three shards of four is overloaded, the other underloaded. */
  lemma ThreeToOne(shards: Placement, a: NodeId, b: NodeId)
    requires a != b && Counts(shards) == map[a := 3, b := 1] && |shards.Keys| == 4
    ensures a in OverNodes(shards, 0.2) && b in UnderNodes(shards, 0.2)
  {
    var counts := Counts(shards);
    assert counts.Keys == {a, b};
    assert Average(counts, 4) == 2.0;
    LoadMeans(3, 2.0, 0.2);
    LoadMeans(1, 2.0, 0.2);
  }

  lemma UnevenLoads(a: NodeId, b: NodeId, s: ShardId, p: ShardId, q: ShardId, r: ShardId)
    requires a != b && s != p && s != q && s != r && p != q && p != r && q != r
    ensures a in OverNodes(Uneven(a, b, s, p, q, r), 0.2)
    ensures b in UnderNodes(Uneven(a, b, s, p, q, r), 0.2)
  {
    UnevenCounts(a, b, s, p, q, r);
    ThreeToOne(Uneven(a, b, s, p, q, r), a, b);
  }

  /** A measurement finds one node overloaded and the other underloaded. When two shards of the first
      are gone before a move is chosen, the move that is chosen leaves the spread worse. */
  lemma StaleMoveUnbalances(a: NodeId, b: NodeId, s: ShardId, p: ShardId, q: ShardId, r: ShardId)
    requires a != b && s != p && s != q && s != r && p != q && p != r && q != r
    ensures a in OverNodes(Uneven(a, b, s, p, q, r), 0.2)
    ensures b in UnderNodes(Uneven(a, b, s, p, q, r), 0.2)
    ensures var shards: Placement := map[s := a, r := b];
            && Pairs(shards, [a], [b], 1, [Task(a, b, s)])
            && !NoWorse(Counts(shards), Counts(Apply(shards, Task(a, b, s))))
  {
    var shards: Placement := map[s := a, r := b];
    UnevenLoads(a, b, s, p, q, r);
    assert shards[s] == a;
    assert [Task(a, b, s)][..0] == [];
    assert Pairs(shards, [a], [b], 0, []);
    assert On(shards, a) == {s} && On(shards, b) == {r};
    MoveIsNoWorseIff(shards, Task(a, b, s));
  }

  lemma MovedCount(shards: Placement, t: Task, n: NodeId)
    requires t.shard in shards && shards[t.shard] == t.source && t.source != t.target
    ensures Count(Apply(shards, t), n) ==
            if n == t.source then Count(shards, n) - 1
            else if n == t.target then Count(shards, n) + 1
            else Count(shards, n)
  {
    OnMoved(shards, t.shard, t.target, n);
    assert t.shard in On(shards, t.source) && t.shard !in On(shards, t.target);
  }

  /** If the move changes no node's membership, both nodes are there before and after. */
  lemma SameMembers(shards: Placement, t: Task)
    requires t.shard in shards && shards[t.shard] == t.source && t.source != t.target
    requires Counts(shards).Keys == Counts(Apply(shards, t)).Keys
    ensures t.source in Counts(shards) && t.target in Counts(shards)
    ensures Count(shards, t.source) > 0
  {
    assert Apply(shards, t)[t.shard] == t.target;
    assert t.target in Apply(shards, t).Values && t.target in Counts(Apply(shards, t)).Keys;
    assert t.source in shards.Values;
    CountPositive(shards, t.source);
  }

  lemma CountsMoved(shards: Placement, t: Task)
    requires t.shard in shards && shards[t.shard] == t.source && t.source != t.target
    requires t.source in Counts(shards) && t.target in Counts(shards)
    requires Counts(shards).Keys == Counts(Apply(shards, t)).Keys && Count(shards, t.source) > 0
    ensures Counts(Apply(shards, t)) ==
            Counts(shards)[t.source := Counts(shards)[t.source] - 1]
                          [t.target := Counts(shards)[t.target] + 1]
  {
    forall n | n in Counts(shards)
      ensures Count(Apply(shards, t), n) ==
              if n == t.source then Count(shards, n) - 1
              else if n == t.target then Count(shards, n) + 1
              else Count(shards, n)
    {
      MovedCount(shards, t, n);
    }
  }

  /** The shards that are moved are all different. */
  lemma MovedShardsDiffer(shards: Placement, tasks: seq<Task>, i: nat, j: nat)
    requires Movable(shards, tasks) && i < j < |tasks|
    ensures tasks[i].shard != tasks[j].shard
  {
    assert Sensible(shards, tasks[i]) && Sensible(shards, tasks[j]);
  }

  /** The imbalance measured afterwards is not larger than before. */
  lemma ImbalanceDoesNotRise(a: map<NodeId, nat>, b: map<NodeId, nat>, maxA: int, minA: int,
                             maxB: int, minB: int)
    requires NoWorse(a, b) && IsSpread(a, maxA, minA) && IsSpread(b, maxB, minB) && minA > 0
    ensures Imbalance(maxB, minB) <= Imbalance(maxA, minA)
  {
    assert AtMost(a, maxA) && AtMost(b, maxA);
    assert AtLeast(a, minA) && AtLeast(b, minA);
    RatioFalls(maxA, minA, maxB, minB);
  }

  lemma RatioFalls(maxA: int, minA: int, maxB: int, minB: int)
    requires 0 < minA <= minB && maxB <= maxA
    requires minA <= maxA
    ensures (maxB - minB) as real / minB as real <= (maxA - minA) as real / minA as real
  {
    var p, q := minA as real, minB as real;
    var x, y := maxB as real, maxA as real;
    LessOne(x, q);
    LessOne(y, p);
    assert x / q <= y / q by { Monotone(x, y, q); }
    assert y / q <= y / p by { Inverse(y, p, q); }
  }

  lemma LessOne(x: real, q: real)
    requires q > 0.0
    ensures (x - q) / q == x / q - 1.0
  {
    var r := x / q;
    assert (r - 1.0) * q == r * q - q;
    Quotient(x - q, q, r - 1.0);
  }

  lemma Quotient(a: real, q: real, r: real)
    requires q > 0.0 && a == r * q
    ensures a / q == r
  {
    var d := a / q;
    assert d * q == a;
    assert (d - r) * q == d * q - r * q;
    assert (d - r) * q == 0.0;
  }

  lemma Inverse(y: real, p: real, q: real)
    requires y >= 0.0 && 0.0 < p <= q
    ensures y / q <= y / p
  {
    assert y / p - y / q == y * (q - p) / (p * q);
  }
}
