/** Where the shards of a cluster live while nodes come and go. */
module ShardPlacement {
  import opened Basics

  type NodeId = string
  type ShardId = string

  datatype Shard = Shard(primary: NodeId, replicas: seq<NodeId>)

  datatype Cluster = Cluster(nodes: set<NodeId>, shards: map<ShardId, Shard>)

  const EMPTY: Cluster := Cluster({}, map[])

  /** The nodes of a shard, primary first. */
  function Chain(s: Shard): seq<NodeId> {
    [s.primary] + s.replicas
  }

  // ----------------------------------------------------------------------- operations

  function Drop(s: seq<NodeId>, n: NodeId): seq<NodeId> {
    if s == [] then []
    else
      var init, last := Drop(s[..|s| - 1], n), s[|s| - 1];
      if last == n then init else init + [last]
  }

  /** A node leaves a shard: the first replica is promoted when it was the primary. */
  function Leave(s: Shard, n: NodeId): Shard {
    var promoted := if s.primary == n && s.replicas != [] then Shard(s.replicas[0], s.replicas[1..])
                    else s;
    Shard(promoted.primary, Drop(promoted.replicas, n))
  }

  function Placed(order: seq<NodeId>, factor: int): Shard
    requires order != [] && factor >= 1
  {
    Shard(order[0], if factor <= |order| then order[1..factor] else order[1..])
  }

  function IdOf(start: string, end: string): ShardId {
    "shard-" + start + "-" + end
  }

  /** One range starts where the other does and goes on behind a dash. */
  ghost predicate RunsOn(start: string, end: string, start': string, end': string) {
    exists m :: start == start' + ['-'] + m && end' == m + ['-'] + end
  }

  lemma CutShorter(start: string, end: string, start': string, end': string)
    requires start + ['-'] + end == start' + ['-'] + end' && |start| > |start'|
    ensures RunsOn(start, end, start', end')
  {
    var all, n := start + ['-'] + end, |start'|;
    var m := start[n + 1..];
    assert start == all[..|start|];
    assert start[..n] == all[..n] == start' && start[n] == all[n] == '-';
    assert start == start[..n] + [start[n]] + m;
    assert end' == all[n + 1..] == m + ['-'] + end;
  }

  lemma SameText(start: string, end: string, start': string, end': string)
    ensures start + ['-'] + end == start' + ['-'] + end' <==>
            || (start == start' && end == end')
            || RunsOn(start, end, start', end') || RunsOn(start', end', start, end)
  {
    if start + ['-'] + end == start' + ['-'] + end' {
      var all := start + ['-'] + end;
      if |start| > |start'| {
        CutShorter(start, end, start', end');
      } else if |start| < |start'| {
        CutShorter(start', end', start, end);
      } else {
        assert start == all[..|start|] == start' && end == all[|start| + 1..] == end';
      }
    }
    if m :| start == start' + ['-'] + m && end' == m + ['-'] + end {
      assert start + ['-'] + end == start' + ['-'] + end';
    }
    if m :| start' == start + ['-'] + m && end == m + ['-'] + end' {
      assert start + ['-'] + end == start' + ['-'] + end';
    }
  }

  /** Two ranges share a shard id if and only if they are the same or one runs on from the other. */
  lemma SameIdIff(start: string, end: string, start': string, end': string)
    ensures IdOf(start, end) == IdOf(start', end') <==>
            || (start == start' && end == end')
            || RunsOn(start, end, start', end') || RunsOn(start', end', start, end)
  {
    var a, b := start + ['-'] + end, start' + ['-'] + end';
    assert IdOf(start, end) == "shard-" + a && IdOf(start', end') == "shard-" + b;
    assert ("shard-" + a)[6..] == a && ("shard-" + b)[6..] == b;
    SameText(start, end, start', end');
  }

  /** `order` is the order in which the node map yields its keys. */
  datatype Op =
    | AddNode(n: NodeId)
    | RemoveNode(n: NodeId)
    | CreateShard(start: string, end: string, order: seq<NodeId>)

  ghost predicate Allowed(c: Cluster, op: Op) {
    op.CreateShard? ==> Distinct(op.order) && forall n :: n in op.order <==> n in c.nodes
  }

  function Step(c: Cluster, op: Op, factor: int): Cluster {
    match op
    case AddNode(n) => c.(nodes := c.nodes + {n})
    case RemoveNode(n) =>
      if n !in c.nodes then c
      else Cluster(c.nodes - {n}, map id | id in c.shards :: Leave(c.shards[id], n))
    case CreateShard(start, end, order) =>
      if order == [] || factor < 1 || order[0] == "" then c
      else c.(shards := c.shards[IdOf(start, end) := Placed(order, factor)])
  }

  function Run(c: Cluster, ops: seq<Op>, factor: int): Cluster {
    if ops == [] then c else Step(Run(c, ops[..|ops| - 1], factor), ops[|ops| - 1], factor)
  }

  ghost predicate AllAllowed(c: Cluster, ops: seq<Op>, factor: int) {
    ops == [] || (AllAllowed(c, ops[..|ops| - 1], factor) &&
                  Allowed(Run(c, ops[..|ops| - 1], factor), ops[|ops| - 1]))
  }

  // ------------------------------------------------------------------------ invariant

  /** The nodes of a shard are distinct, its replicas are members, and so is its primary unless
      the shard has no replica left. */
  predicate SoundShard(nodes: set<NodeId>, s: Shard) {
    && Distinct(Chain(s))
    && (forall n | n in s.replicas :: n in nodes)
    && (s.replicas != [] ==> s.primary in nodes)
  }

  predicate Sound(c: Cluster) {
    forall id | id in c.shards :: SoundShard(c.nodes, c.shards[id])
  }

  lemma {:induction false} DropContents(s: seq<NodeId>, n: NodeId)
    ensures forall x :: x in Drop(s, n) <==> x in s && x != n
    ensures n !in s ==> Drop(s, n) == s
  {
    if s != [] {
      var init, last := s[..|s| - 1], s[|s| - 1];
      assert s == init + [last];
      DropContents(init, n);
    }
  }

  lemma {:induction false} DropDistinct(s: seq<NodeId>, n: NodeId)
    requires Distinct(s)
    ensures Distinct(Drop(s, n))
  {
    if s != [] {
      var init, last := s[..|s| - 1], s[|s| - 1];
      var d := Drop(init, n);
      DropDistinct(init, n);
      DropContents(init, n);
      assert forall i | 0 <= i < |d| :: d[i] in d && d[i] in init;
      assert last !in init;
    }
  }

  lemma {:induction false} DropFirst(x: NodeId, s: seq<NodeId>, n: NodeId)
    ensures Drop([x] + s, n) == (if x == n then [] else [x]) + Drop(s, n)
  {
    if s == [] {
      assert [x] + s == [x];
    } else {
      DropFirst(x, s[..|s| - 1], n);
      assert ([x] + s)[..|s|] == [x] + s[..|s| - 1];
    }
  }

  lemma PrimaryNotReplica(s: Shard)
    requires Distinct(Chain(s))
    ensures s.primary !in s.replicas
  {
    forall i | 0 <= i < |s.replicas| ensures s.replicas[i] != s.primary {
      assert Chain(s)[0] == s.primary && Chain(s)[i + 1] == s.replicas[i];
    }
  }

  /** Leaving removes the node from the chain, unless it is the only one there. */
  lemma LeaveChain(s: Shard, n: NodeId)
    requires Distinct(Chain(s))
    ensures Chain(Leave(s, n)) == if Drop(Chain(s), n) == [] then Chain(s) else Drop(Chain(s), n)
  {
    DropFirst(s.primary, s.replicas, n);
    if s.primary == n && s.replicas != [] {
      var rest := s.replicas[1..];
      PrimaryNotReplica(s);
      DropContents(s.replicas, n);
      DropContents(rest, n);
      assert s.replicas == [s.replicas[0]] + rest;
    }
  }

  lemma LastOfChain(s: Shard, n: NodeId)
    requires Distinct(Chain(s)) && Drop(Chain(s), n) == []
    ensures s == Shard(n, [])
  {
    DropContents(Chain(s), n);
    assert forall i | 0 <= i < |Chain(s)| :: Chain(s)[i] in Chain(s);
    assert Chain(s)[0] == n;
  }

  lemma MembersSound(nodes: set<NodeId>, s: Shard)
    requires Distinct(Chain(s)) && forall x | x in Chain(s) :: x in nodes
    ensures SoundShard(nodes, s)
  {
    assert s.primary in Chain(s) && forall x | x in s.replicas :: x in Chain(s);
  }

  lemma LeaveSound(nodes: set<NodeId>, s: Shard, n: NodeId)
    requires SoundShard(nodes, s)
    ensures SoundShard(nodes - {n}, Leave(s, n))
  {
    if s.replicas == [] {
      assert Leave(s, n) == s;
    } else {
      LeaveChain(s, n);
      if Drop(Chain(s), n) == [] {
        LastOfChain(s, n);
      }
      DropContents(Chain(s), n);
      DropDistinct(Chain(s), n);
      MembersSound(nodes - {n}, Leave(s, n));
    }
  }

  lemma PlacedSound(nodes: set<NodeId>, order: seq<NodeId>, factor: int)
    requires order != [] && factor >= 1 && Distinct(order) && forall n | n in order :: n in nodes
    ensures Chain(Placed(order, factor)) == order[..if factor <= |order| then factor else |order|]
    ensures SoundShard(nodes, Placed(order, factor)) && Placed(order, factor).primary in nodes
  {
    var s, k := Placed(order, factor), if factor <= |order| then factor else |order|;
    assert Chain(s) == order[..k];
    assert forall x | x in order[..k] :: x in order;
    MembersSound(nodes, s);
  }

  lemma SoundStep(c: Cluster, op: Op, factor: int)
    requires Sound(c) && Allowed(c, op)
    ensures Sound(Step(c, op, factor))
  {
    match op
    case AddNode(n) =>
    case RemoveNode(n) =>
      forall id | id in c.shards ensures SoundShard(c.nodes - {n}, Leave(c.shards[id], n)) {
        LeaveSound(c.nodes, c.shards[id], n);
      }
    case CreateShard(_, _, order) =>
      if order != [] && factor >= 1 {
        PlacedSound(c.nodes, order, factor);
      }
  }

  /** In every run, the replicas of every shard are distinct members other than its primary, and
      the primary is a member while there are replicas. */
  lemma {:induction false} PlacementStaysSound(c: Cluster, ops: seq<Op>, factor: int)
    requires Sound(c) && AllAllowed(c, ops, factor)
    ensures Sound(Run(c, ops, factor))
  {
    if ops != [] {
      PlacementStaysSound(c, ops[..|ops| - 1], factor);
      SoundStep(Run(c, ops[..|ops| - 1], factor), ops[|ops| - 1], factor);
    }
  }

  function Least(a: int, b: int): int {
    if a <= b then a else b
  }

  /** Creating a shard changes nothing if it is refused or panics. Otherwise the range has a shard
      afterwards, on the first nodes of the order, as many as the factor says or as there are; the
      members and all other shards stay. */
  lemma ShardIsCreated(c: Cluster, start: string, end: string, order: seq<NodeId>, factor: int)
    ensures var c', id := Step(c, CreateShard(start, end, order), factor), IdOf(start, end);
            && c'.nodes == c.nodes
            && (forall x | x in c.shards && x != id :: x in c'.shards && c'.shards[x] == c.shards[x])
            && if order == [] || factor < 1 || order[0] == "" then c' == c
               else && c'.shards.Keys == c.shards.Keys + {id}
                    && Chain(c'.shards[id]) == order[..Least(factor, |order|)]
  {
  }

  /** Creating the shard of a new range replaces the shard of another range with the same id. */
  lemma NewRangeReplacesShard(c: Cluster, m: string, order: seq<NodeId>, factor: int)
    requires IdOf("a-" + m, "c") in c.shards && order != [] && order[0] != "" && factor >= 1
    ensures var c' := Step(c, CreateShard("a", m + "-c", order), factor);
            && c'.shards.Keys == c.shards.Keys
            && c'.shards[IdOf("a-" + m, "c")] == Placed(order, factor)
  {
    assert "a-" + m == "a" + ['-'] + m && m + "-c" == m + ['-'] + "c";
    SameIdIff("a-" + m, "c", "a", m + "-c");
  }

  // ------------------------------------------------------------------------- survival

  /** The nodes that were members when a run removed them. */
  function RemovedIn(c: Cluster, ops: seq<Op>, factor: int): set<NodeId> {
    if ops == [] then {}
    else
      var before, op := ops[..|ops| - 1], ops[|ops| - 1];
      RemovedIn(c, before, factor) +
      if op.RemoveNode? && op.n in Run(c, before, factor).nodes then {op.n} else {}
  }

  function Survivors(chain: seq<NodeId>, gone: set<NodeId>): seq<NodeId> {
    if chain == [] then []
    else
      var init, last := Survivors(chain[..|chain| - 1], gone), chain[|chain| - 1];
      if last in gone then init else init + [last]
  }

  lemma {:induction false} SurvivorsContents(chain: seq<NodeId>, gone: set<NodeId>)
    ensures forall x :: x in Survivors(chain, gone) <==> x in chain && x !in gone
    ensures gone == {} ==> Survivors(chain, gone) == chain
  {
    if chain != [] {
      assert chain == chain[..|chain| - 1] + [chain[|chain| - 1]];
      SurvivorsContents(chain[..|chain| - 1], gone);
    }
  }

  lemma {:induction false} SurvivorsDrop(chain: seq<NodeId>, gone: set<NodeId>, n: NodeId)
    ensures Survivors(chain, gone + {n}) == Drop(Survivors(chain, gone), n)
  {
    if chain != [] {
      var init, last := chain[..|chain| - 1], chain[|chain| - 1];
      SurvivorsDrop(init, gone, n);
      var s := Survivors(init, gone);
      assert (s + [last])[..|s|] == s;
    }
  }

  /** The run never creates a shard with this id again. */
  predicate Keeps(ops: seq<Op>, id: ShardId) {
    forall op | op in ops :: op.CreateShard? ==> IdOf(op.start, op.end) != id
  }

  /** What is left of a chain after nodes have gone: the survivors in their old order, or the last
      primary when there are none. */
  predicate Remains(chain: seq<NodeId>, gone: set<NodeId>, nodes: set<NodeId>, s: Shard) {
    var left := Survivors(chain, gone);
    if left == [] then s.replicas == [] && s.primary in chain
    else Chain(s) == left && forall n | n in left :: n in nodes
  }

  lemma LeaveRemains(chain: seq<NodeId>, gone: set<NodeId>, nodes: set<NodeId>, s: Shard, n: NodeId)
    requires Remains(chain, gone, nodes, s) && Distinct(Chain(s))
    ensures Remains(chain, gone + {n}, nodes - {n}, Leave(s, n))
  {
    SurvivorsDrop(chain, gone, n);
    SurvivorsContents(chain, gone);
    LeaveChain(s, n);
    DropContents(Survivors(chain, gone), n);
    if Survivors(chain, gone) != [] && Drop(Chain(s), n) == [] {
      LastOfChain(s, n);
      assert s.primary in Chain(s);
    }
  }

  lemma OtherStep(c: Cluster, op: Op, factor: int, id: ShardId)
    requires id in c.shards && !(op.RemoveNode? && op.n in c.nodes)
    requires op.CreateShard? ==> IdOf(op.start, op.end) != id
    ensures id in Step(c, op, factor).shards && Step(c, op, factor).shards[id] == c.shards[id]
    ensures c.nodes <= Step(c, op, factor).nodes
  {
  }

  lemma LeaveStep(c: Cluster, n: NodeId, factor: int, id: ShardId)
    requires id in c.shards && n in c.nodes
    ensures var c' := Step(c, RemoveNode(n), factor);
            && c'.nodes == c.nodes - {n}
            && id in c'.shards && c'.shards[id] == Leave(c.shards[id], n)
  {
  }

  /** In every run, whatever is added, removed and created in between, a shard placed on `chain`
      consists of exactly the nodes of `chain` that were never removed, in their order; its
      primary is the first of them and is a member. */
  lemma {:induction false} ShardSurvives(c: Cluster, ops: seq<Op>, factor: int, id: ShardId)
    requires Sound(c) && AllAllowed(c, ops, factor) && Keeps(ops, id)
    requires id in c.shards && forall n | n in Chain(c.shards[id]) :: n in c.nodes
    ensures var c' := Run(c, ops, factor);
            && id in c'.shards
            && Remains(Chain(c.shards[id]), RemovedIn(c, ops, factor), c'.nodes, c'.shards[id])
  {
    var chain := Chain(c.shards[id]);
    if ops == [] {
      SurvivorsContents(chain, {});
    } else {
      var before, op := ops[..|ops| - 1], ops[|ops| - 1];
      assert ops == before + [op];
      ShardSurvives(c, before, factor, id);
      PlacementStaysSound(c, before, factor);
      var mid, gone := Run(c, before, factor), RemovedIn(c, before, factor);
      if op.RemoveNode? && op.n in mid.nodes {
        LeaveRemains(chain, gone, mid.nodes, mid.shards[id], op.n);
        LeaveStep(mid, op.n, factor, id);
      } else {
        assert op in ops;
        OtherStep(mid, op, factor, id);
        assert RemovedIn(c, ops, factor) == gone;
      }
    }
  }

  function Removals(ops: seq<Op>): nat {
    if ops == [] then 0
    else Removals(ops[..|ops| - 1]) + if ops[|ops| - 1].RemoveNode? then 1 else 0
  }

  lemma {:induction false} RemovedBound(c: Cluster, ops: seq<Op>, factor: int)
    ensures |RemovedIn(c, ops, factor)| <= Removals(ops)
  {
    if ops != [] {
      RemovedBound(c, ops[..|ops| - 1], factor);
    }
  }

  /** A shard placed on r nodes still has a member as its primary after any r - 1 removals. */
  lemma PrimaryAfterRemovals(c: Cluster, ops: seq<Op>, factor: int, id: ShardId)
    requires Sound(c) && AllAllowed(c, ops, factor) && Keeps(ops, id)
    requires id in c.shards && forall n | n in Chain(c.shards[id]) :: n in c.nodes
    requires Removals(ops) < |Chain(c.shards[id])|
    ensures var c' := Run(c, ops, factor);
            id in c'.shards && c'.shards[id].primary in c'.nodes
  {
    var chain, gone := Chain(c.shards[id]), RemovedIn(c, ops, factor);
    ShardSurvives(c, ops, factor, id);
    SurvivorsContents(chain, gone);
    RemovedBound(c, ops, factor);
    if Survivors(chain, gone) == [] {
      assert forall n | n in chain :: n in gone;
      DistinctSize(chain);
      SubsetSize(Elements(chain), gone);
      assert false;
    }
    var s := Run(c, ops, factor).shards[id];
    assert s.primary in Chain(s);
  }

  predicate NeverReadded(ops: seq<Op>, chain: seq<NodeId>) {
    forall op | op in ops :: op.AddNode? ==> op.n !in chain
  }

  lemma {:induction false} GoneStaysGone(c: Cluster, ops: seq<Op>, factor: int, chain: seq<NodeId>,
                                         n: NodeId)
    requires NeverReadded(ops, chain) && n in chain
    requires n in RemovedIn(c, ops, factor)
    ensures n !in Run(c, ops, factor).nodes
  {
    var before, op := ops[..|ops| - 1], ops[|ops| - 1];
    assert ops == before + [op];
    if n in RemovedIn(c, before, factor) {
      GoneStaysGone(c, before, factor, chain, n);
    }
  }

  /** Unless one of its nodes is added again, a shard has a member as its primary if and only if
      not all of the nodes it was placed on have been removed. */
  lemma PrimaryLivesIff(c: Cluster, ops: seq<Op>, factor: int, id: ShardId)
    requires Sound(c) && AllAllowed(c, ops, factor) && Keeps(ops, id)
    requires id in c.shards && forall n | n in Chain(c.shards[id]) :: n in c.nodes
    requires NeverReadded(ops, Chain(c.shards[id]))
    ensures var c' := Run(c, ops, factor);
            && id in c'.shards
            && (c'.shards[id].primary in c'.nodes <==>
                  exists n | n in Chain(c.shards[id]) :: n !in RemovedIn(c, ops, factor))
  {
    var chain, gone := Chain(c.shards[id]), RemovedIn(c, ops, factor);
    var s := Run(c, ops, factor).shards[id];
    ShardSurvives(c, ops, factor, id);
    SurvivorsContents(chain, gone);
    if Survivors(chain, gone) == [] {
      assert forall n | n in chain :: n in gone;
      GoneStaysGone(c, ops, factor, chain, s.primary);
    } else {
      assert s.primary in Chain(s);
    }
  }

  // ------------------------------------------------------------------- from creation on

  /** What the run last did to the node: added it, removed it, or neither. */
  function LastDone(ops: seq<Op>, n: NodeId): Option<bool> {
    if ops == [] then None
    else
      var op := ops[|ops| - 1];
      if op == AddNode(n) then Some(true)
      else if op == RemoveNode(n) then Some(false)
      else LastDone(ops[..|ops| - 1], n)
  }

  /** In every run a node is a member if and only if it was added last, or was there all along. */
  lemma {:induction false} MemberIff(c: Cluster, ops: seq<Op>, factor: int, n: NodeId)
    ensures n in Run(c, ops, factor).nodes <==>
            LastDone(ops, n) == Some(true) || (LastDone(ops, n) == None && n in c.nodes)
  {
    if ops != [] {
      MemberIff(c, ops[..|ops| - 1], factor, n);
    }
  }

  lemma {:induction false} RunJoin(c: Cluster, a: seq<Op>, b: seq<Op>, factor: int)
    ensures Run(c, a + b, factor) == Run(Run(c, a, factor), b, factor)
    ensures AllAllowed(c, a + b, factor) <==>
            AllAllowed(c, a, factor) && AllAllowed(Run(c, a, factor), b, factor)
  {
    if b == [] {
      assert a + b == a;
    } else {
      RunJoin(c, a, b[..|b| - 1], factor);
      assert (a + b)[..|a + b| - 1] == a + b[..|b| - 1];
    }
  }

  /** A shard that is created in a run, on the first r nodes of the order, consists afterwards of
      those of them that have not been removed since, in their order; its primary is a member as long
      as fewer than r removals have followed. */
  lemma CreatedShardSurvives(before: seq<Op>, create: Op, after: seq<Op>, factor: int)
    requires create.CreateShard? && create.order != [] && create.order[0] != "" && factor >= 1
    requires AllAllowed(EMPTY, before + [create] + after, factor)
    requires Keeps(after, IdOf(create.start, create.end))
    ensures var id, placed := IdOf(create.start, create.end), Least(factor, |create.order|);
            var c := Run(EMPTY, before + [create], factor);
            var c' := Run(EMPTY, before + [create] + after, factor);
            && id in c'.shards
            && Remains(create.order[..placed], RemovedIn(c, after, factor), c'.nodes, c'.shards[id])
            && (Removals(after) < placed ==> c'.shards[id].primary in c'.nodes)
  {
    var id := IdOf(create.start, create.end);
    var b, c := Run(EMPTY, before, factor), Run(EMPTY, before + [create], factor);
    RunJoin(EMPTY, before + [create], after, factor);
    assert (before + [create])[..|before|] == before;
    PlacementStaysSound(EMPTY, before, factor);
    PlacementStaysSound(EMPTY, before + [create], factor);
    ShardIsCreated(b, create.start, create.end, create.order, factor);
    assert forall n | n in Chain(c.shards[id]) :: n in create.order;
    ShardSurvives(c, after, factor, id);
    if Removals(after) < |Chain(c.shards[id])| {
      PrimaryAfterRemovals(c, after, factor, id);
    }
  }

  // -------------------------------------------------------------- the cluster as an object

  datatype Outcome = Created | Refused | Panicked

  class Placement {
    const factor: int
    var nodes: set<NodeId>
    var shards: map<ShardId, Shard>

    ghost function View(): Cluster
      reads this
    {
      Cluster(nodes, shards)
    }

    /** A replication factor of zero means three. */
    constructor (factor: int)
      ensures View() == EMPTY
      ensures this.factor == if factor == 0 then 3 else factor
    {
      this.factor := if factor == 0 then 3 else factor;
      nodes, shards := {}, map[];
    }

    method AddNode(n: NodeId) returns (ok: bool)
      modifies this`nodes
      ensures ok <==> n !in old(nodes)
      ensures nodes == old(nodes) + {n}
      ensures View() == Step(old(View()), Op.AddNode(n), factor)
    {
      if n in nodes {
        return false;
      }
      nodes := nodes + {n};
      ok := true;
    }

    method RemoveNode(n: NodeId) returns (ok: bool)
      modifies this
      ensures ok <==> n in old(nodes)
      ensures View() == Step(old(View()), Op.RemoveNode(n), factor)
    {
      if n !in nodes {
        return false;
      }
      MigrateNodeShards(n);
      nodes := nodes - {n};
      ok := true;
    }

    method MigrateNodeShards(n: NodeId)
      modifies this`shards
      ensures shards == map id | id in old(shards) :: Leave(old(shards)[id], n)
    {
      var rest := shards.Keys;
      while rest != {}
        invariant rest <= shards.Keys == old(shards).Keys
        invariant forall id | id in shards ::
                    shards[id] == if id in rest then old(shards)[id] else Leave(old(shards)[id], n)
      {
        var id :| id in rest;
        var shard := shards[id];
        if shard.primary == n {
          if |shard.replicas| > 0 {
            shard := Shard(shard.replicas[0], shard.replicas[1..]);
          }
        }
        var newReplicas := WithoutNode(shard.replicas, n);
        shards := shards[id := shard.(replicas := newReplicas)];
        rest := rest - {id};
      }
    }

    static method WithoutNode(replicas: seq<NodeId>, n: NodeId) returns (r: seq<NodeId>)
      ensures r == Drop(replicas, n)
    {
      r := [];
      for i := 0 to |replicas|
        invariant r == Drop(replicas[..i], n)
      {
        assert replicas[..i + 1][..i] == replicas[..i];
        if replicas[i] != n {
          r := r + [replicas[i]];
        }
      }
      assert replicas[..|replicas|] == replicas;
    }

    method CreateShard(start: string, end: string)
      returns (outcome: Outcome, ghost order: seq<NodeId>)
      modifies this`shards
      ensures Allowed(old(View()), Op.CreateShard(start, end, order))
      ensures View() == Step(old(View()), Op.CreateShard(start, end, order), factor)
      ensures outcome == if order == [] then Refused
                         else if factor < 1 then Panicked
                         else if order[0] == "" then Refused
                         else Created
      ensures var id := IdOf(start, end);
              outcome == Created ==>
                && shards.Keys == old(shards).Keys + {id}
                && Chain(shards[id]) == order[..Least(factor, |order|)]
    {
      var id := IdOf(start, end);
      var panics, primary, replicas, o := SelectNodesForShard();
      order := o;
      if panics {
        return Panicked, order;
      }
      if primary == "" {
        return Refused, order;
      }
      shards := shards[id := Shard(primary, replicas)];
      outcome := Created;
    }

    /** Panics on a negative number of replicas, for which no list can be made. */
    method SelectNodesForShard()
      returns (panics: bool, primary: NodeId, replicas: seq<NodeId>, ghost order: seq<NodeId>)
      ensures Distinct(order) && forall n :: n in order <==> n in nodes
      ensures panics <==> order != [] && factor < 1
      ensures order == [] ==> primary == ""
      ensures order != [] && !panics ==> Shard(primary, replicas) == Placed(order, factor)
    {
      var nodeIds: seq<NodeId>, rest := [], nodes;
      while rest != {}
        invariant rest <= nodes && Distinct(nodeIds)
        invariant forall n :: n in nodeIds <==> n in nodes && n !in rest
      {
        var n :| n in rest;
        nodeIds, rest := nodeIds + [n], rest - {n};
      }
      order := nodeIds;
      panics, primary, replicas := false, "", [];
      if |nodeIds| == 0 {
        return;
      }
      primary := nodeIds[0];
      var replicaCount := factor - 1;
      if replicaCount > |nodeIds| - 1 {
        replicaCount := |nodeIds| - 1;
      }
      if replicaCount < 0 {
        return true, primary, replicas, order;
      }
      var i := 1;
      while i <= replicaCount && i < |nodeIds|
        invariant 1 <= i <= replicaCount + 1 && replicas == nodeIds[1..i]
      {
        replicas := replicas + [nodeIds[i]];
        i := i + 1;
      }
    }
  }
}
