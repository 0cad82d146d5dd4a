/** What the hash ring holds after any sequence of joins and leaves. */
module RingMembers {
  import opened Basics
  import opened HashRing

  datatype Op = Join(n: NodeId) | Depart(n: NodeId)

  function Step(hash: string -> uint32, replicas: int, ring: map<uint32, NodeId>, op: Op):
    map<uint32, NodeId>
  {
    match op
    case Join(n) => Added(ring, Points(hash, n, replicas), n)
    case Depart(n) => Removed(ring, Points(hash, n, replicas))
  }

  function Run(hash: string -> uint32, replicas: int, ops: seq<Op>): map<uint32, NodeId> {
    if ops == [] then map[]
    else Step(hash, replicas, Run(hash, replicas, ops[..|ops| - 1]), ops[|ops| - 1])
  }

  /** The nodes that have joined and not left since. */
  function Members(ops: seq<Op>): set<NodeId> {
    if ops == [] then {}
    else
      var before := Members(ops[..|ops| - 1]);
      match ops[|ops| - 1]
      case Join(n) => before + {n}
      case Depart(n) => before - {n}
  }

  predicate Over(ops: seq<Op>, nodes: set<NodeId>) {
    forall i | 0 <= i < |ops| :: ops[i].n in nodes
  }

  /** Every member holds all its points, and nobody else holds any. */
  ghost predicate Holds(hash: string -> uint32, replicas: int, ring: map<uint32, NodeId>,
                        members: set<NodeId>)
  {
    forall p: uint32, n ::
      p in ring && ring[p] == n <==> n in members && p in Points(hash, n, replicas)
  }

  /** No two of the nodes share a point. */
  ghost predicate Apart(hash: string -> uint32, replicas: int, nodes: set<NodeId>) {
    forall n, m | n in nodes && m in nodes && n != m ::
      Points(hash, n, replicas) !! Points(hash, m, replicas)
  }

  lemma {:induction false} RingHolds(hash: string -> uint32, replicas: int, nodes: set<NodeId>,
                                     ops: seq<Op>)
    requires Apart(hash, replicas, nodes) && Over(ops, nodes)
    ensures Members(ops) <= nodes && Holds(hash, replicas, Run(hash, replicas, ops), Members(ops))
  {
    if ops != [] {
      var before, op := ops[..|ops| - 1], ops[|ops| - 1];
      assert Over(before, nodes);
      RingHolds(hash, replicas, nodes, before);
      StepHolds(hash, replicas, nodes, Run(hash, replicas, before), Members(before), op);
    }
  }

  lemma StepHolds(hash: string -> uint32, replicas: int, nodes: set<NodeId>,
                  ring: map<uint32, NodeId>, members: set<NodeId>, op: Op)
    requires Apart(hash, replicas, nodes) && members <= nodes && op.n in nodes
    requires Holds(hash, replicas, ring, members)
    ensures Holds(hash, replicas, Step(hash, replicas, ring, op),
                  if op.Join? then members + {op.n} else members - {op.n})
  {
    var ring' := Step(hash, replicas, ring, op);
    var points := Points(hash, op.n, replicas);
    forall p: uint32, n
      ensures p in ring' && ring'[p] == n <==>
              n in (if op.Join? then members + {op.n} else members - {op.n})
              && p in Points(hash, n, replicas)
    {
      if n != op.n && n in nodes {
        assert points !! Points(hash, n, replicas);
      }
      assert p in ring && ring[p] == n <==> n in members && p in Points(hash, n, replicas);
      if p in ring {
        assert ring[p] in members && p in Points(hash, ring[p], replicas);
      }
    }
  }

  /** After every sequence of joins and leaves of the given nodes every member holds all its points
      and nobody else holds any, if and only if no two of the nodes share a point. */
  lemma RingHoldsIff(hash: string -> uint32, replicas: int, nodes: set<NodeId>)
    ensures (forall ops | Over(ops, nodes) ::
               Holds(hash, replicas, Run(hash, replicas, ops), Members(ops)))
            <==> Apart(hash, replicas, nodes)
  {
    if Apart(hash, replicas, nodes) {
      forall ops | Over(ops, nodes)
        ensures Holds(hash, replicas, Run(hash, replicas, ops), Members(ops))
      {
        RingHolds(hash, replicas, nodes, ops);
      }
    } else {
      var n, m :| n in nodes && m in nodes && n != m
                  && !(Points(hash, n, replicas) !! Points(hash, m, replicas));
      SharedPointIsLost(hash, replicas, n, m);
      assert Over([Join(n), Join(m)], nodes);
    }
  }

  /** Of two nodes that share a point only the one that joined last holds it. */
  lemma SharedPointIsLost(hash: string -> uint32, replicas: int, n: NodeId, m: NodeId)
    requires n != m && !(Points(hash, n, replicas) !! Points(hash, m, replicas))
    ensures var ops := [Join(n), Join(m)];
            !Holds(hash, replicas, Run(hash, replicas, ops), Members(ops))
  {
    var ops := [Join(n), Join(m)];
    assert ops[..1] == [Join(n)] && Members([Join(n)]) == {n};
    assert Members(ops) == Members(ops[..1]) + {m};
    var p :| p in Points(hash, n, replicas) && p in Points(hash, m, replicas);
    assert p in Run(hash, replicas, ops) && Run(hash, replicas, ops)[p] == m;
  }

  // ----------------------------------------------------------------- hashes without collisions

  /** The hash tells all labels of the nodes apart. */
  predicate Separates(hash: string -> uint32, replicas: int, nodes: set<NodeId>) {
    forall n, m | n in nodes && m in nodes ::
      forall i: nat, j: nat | i < replicas && j < replicas ::
        hash(Label(n, i)) == hash(Label(m, j)) ==> Label(n, i) == Label(m, j)
  }

  lemma {:induction false} PointsSize(hash: string -> uint32, replicas: nat, n: NodeId)
    requires Separates(hash, replicas, {n})
    ensures |Points(hash, n, replicas)| == replicas
  {
    if replicas > 0 {
      var i := replicas - 1;
      PointsSize(hash, i, n);
      PointsNext(hash, n, i);
      forall j: nat | j < i ensures hash(Label(n, j)) != hash(Label(n, i)) {
        LabelsDiffer(n, j, n, i);
      }
      assert hash(Label(n, i)) !in Points(hash, n, i);
    }
  }

  lemma SeparatedApart(hash: string -> uint32, replicas: nat, nodes: set<NodeId>)
    requires Separates(hash, replicas, nodes)
    ensures Apart(hash, replicas, nodes)
    ensures forall n | n in nodes :: |Points(hash, n, replicas)| == replicas
  {
    forall n | n in nodes ensures |Points(hash, n, replicas)| == replicas {
      assert Separates(hash, replicas, {n});
      PointsSize(hash, replicas, n);
    }
    forall n, m | n in nodes && m in nodes && n != m
      ensures Points(hash, n, replicas) !! Points(hash, m, replicas)
    {
      forall p | p in Points(hash, n, replicas) ensures p !in Points(hash, m, replicas) {
        var i: nat :| i < replicas && p == hash(Label(n, i));
        forall j: nat | j < replicas ensures p != hash(Label(m, j)) {
          LabelsDiffer(n, i, m, j);
        }
      }
    }
  }

  lemma AnswersAll(ring: map<uint32, NodeId>, h: uint32, count: nat, r: seq<NodeId>)
    requires Answers(ring, h, count, r) && count >= |ring.Values|
    ensures Elements(r) == ring.Values
  {
    if ring.Keys == {} {
      assert ring.Values == {};
    } else {
      var p :| p in ring.Keys;
      assert ring[p] in ring.Values;
      var pref :| IsPreference(ring, h, pref) && r == Take(pref, count);
      PreferenceUnique(ring, h, pref, pref);
    }
  }

  lemma MemberServes(hash: string -> uint32, replicas: nat, ring: map<uint32, NodeId>,
                     members: set<NodeId>, n: NodeId)
    requires Holds(hash, replicas, ring, members) && n in members && replicas > 0
    ensures n in ring.Values
    ensures forall p | p in Points(hash, n, replicas) :: p in ring && Owner(ring, p) == n
  {
    assert hash(Label(n, 0)) in Points(hash, n, replicas);
    forall p | p in Points(hash, n, replicas) ensures p in ring && Owner(ring, p) == n {
      assert p in ring && ring[p] == n;
      SelfOwned(ring, p);
    }
  }

  lemma OnlyMembers(hash: string -> uint32, replicas: nat, ring: map<uint32, NodeId>,
                    members: set<NodeId>)
    requires Holds(hash, replicas, ring, members) && replicas > 0
    ensures ring.Values == members
  {
    forall n | n in members ensures n in ring.Values {
      MemberServes(hash, replicas, ring, members, n);
    }
    forall n | n in ring.Values ensures n in members {
      var p :| p in ring && ring[p] == n;
    }
  }

  /** With a hash that tells the labels apart and at least one replica, after every sequence of joins
      and leaves: the nodes of the ring are exactly the members, each of them owns `replicas` points,
      and a lookup that asks for enough nodes answers with all of them. */
  lemma EveryMemberServes(hash: string -> uint32, replicas: nat, nodes: set<NodeId>, ops: seq<Op>)
    requires Separates(hash, replicas, nodes) && Over(ops, nodes) && replicas > 0
    ensures var ring := Run(hash, replicas, ops);
            && ring.Values == Members(ops)
            && (forall n | n in Members(ops) ::
                  && |Points(hash, n, replicas)| == replicas
                  && forall p | p in Points(hash, n, replicas) :: p in ring && Owner(ring, p) == n)
            && (forall h, count: nat, r |
                  Answers(ring, h, count, r) && count >= |Members(ops)| :: Elements(r) == Members(ops))
  {
    var ring, members := Run(hash, replicas, ops), Members(ops);
    SeparatedApart(hash, replicas, nodes);
    RingHolds(hash, replicas, nodes, ops);
    OnlyMembers(hash, replicas, ring, members);
    forall n | n in members
      ensures forall p | p in Points(hash, n, replicas) :: p in ring && Owner(ring, p) == n
    {
      MemberServes(hash, replicas, ring, members, n);
    }
    forall h, count: nat, r | Answers(ring, h, count, r) && count >= |members|
      ensures Elements(r) == members
    {
      AnswersAll(ring, h, count, r);
    }
  }
}
