/** Replicas whose cluster changes under them.

    Nodes join and leave the cluster, which changes the number an election is counted against but
    neither their state nor their leader flag, and the failover manager sets the flag of a member
    directly. The result says which of these let two members lead one term. */
module RaftMembership {
  import opened Basics
  import opened RaftNode
  import R = RaftCluster

  /** All replicas that exist, and which of them are members. */
  datatype System = System(replicas: map<NodeId, NodeState>, members: set<NodeId>)

  datatype Event =
    | Join(n: NodeId)
    | Leave(n: NodeId)
    | Promote(n: NodeId)
    | Handle(e: R.Event)

  function Start(ids: set<NodeId>): System {
    System(map n | n in ids :: Fresh(n), {})
  }

  /** What a replica does with an event of its own; only an election looks at the members. */
  function React(s: NodeState, e: R.Event, peers: Option<set<NodeId>>): NodeState {
    match e
    case Timeout(_) => OnElectionTimeout(s, peers)
    case DeliverVote(_, req) => OnRequestVote(s, req).0
    case DeliverAppend(_, req) => OnAppendEntries(s, req).0
    case DeliverSnapshot(_, req) => OnSnapshot(s, req).0
    case Propose(_, cmd, now) => OnPropose(s, cmd, now)
    case Send(_, _, _, _) => s
  }

  function Step(y: System, ev: Event): System {
    match ev
    case Join(n) => if n in y.replicas then y.(members := y.members + {n}) else y
    case Leave(n) => y.(members := y.members - {n})
    case Promote(n) =>
      if n in y.members && n in y.replicas
      then y.(replicas := y.replicas[n := Lead(y.replicas[n])]) else y
    case Handle(e) =>
      if e.n !in y.replicas then y
      else
        var peers := if e.n in y.members then Some(y.members) else None;
        y.(replicas := y.replicas[e.n := React(y.replicas[e.n], e, peers)])
  }

  function Run(ids: set<NodeId>, es: seq<Event>): System {
    if es == [] then Start(ids) else Step(Run(ids, es[..|es| - 1]), es[|es| - 1])
  }

  /** Nodes leave, or are promoted from outside, only if that is allowed. */
  predicate Allowed(es: seq<Event>, leaving: bool, promoting: bool) {
    forall i | 0 <= i < |es| :: (es[i].Leave? ==> leaving) && (es[i].Promote? ==> promoting)
  }

  predicate Leads(y: System, n: NodeId) {
    n in y.replicas && y.replicas[n].isLeader
  }

  /** Two members say that they lead the same term. */
  predicate BothLead(y: System, a: NodeId, b: NodeId) {
    && a in y.members && b in y.members && Leads(y, a) && Leads(y, b)
    && y.replicas[a].currentTerm == y.replicas[b].currentTerm
  }

  // ------------------------------------------------------------- joining alone is harmless

  /** Only the member that came first can say that it leads. */
  ghost predicate FirstOnly(y: System, first: NodeId) {
    && (y.members != {} ==> first in y.members)
    && (forall n | Leads(y, n) :: n == first && n in y.members)
  }

  lemma ReactLeads(s: NodeState, e: R.Event, peers: Option<set<NodeId>>)
    requires React(s, e, peers).isLeader
    ensures s.isLeader || (e.Timeout? && peers.Some? && |peers.value| <= 1)
  {
  }

  lemma JoinStep(y: System, ev: Event, first: NodeId) returns (first': NodeId)
    requires FirstOnly(y, first) && !ev.Leave? && !ev.Promote?
    ensures FirstOnly(Step(y, ev), first')
  {
    first' := if ev.Join? && y.members == {} then ev.n else first;
    if ev.Handle? && ev.e.n in y.replicas {
      var n, peers := ev.e.n, if ev.e.n in y.members then Some(y.members) else None;
      if React(y.replicas[n], ev.e, peers).isLeader {
        ReactLeads(y.replicas[n], ev.e, peers);
        if !y.replicas[n].isLeader {
          SubsetSize({n, first}, y.members);
        } else {
          assert Leads(y, n);
        }
      }
      forall m | Leads(Step(y, ev), m) ensures m == first && m in y.members {
        if m != n {
          assert Leads(y, m);
        }
      }
    } else {
      assert forall m :: Leads(Step(y, ev), m) ==> Leads(y, m);
    }
  }

  lemma {:induction false} JoinRun(ids: set<NodeId>, es: seq<Event>) returns (first: NodeId)
    requires Allowed(es, false, false)
    ensures FirstOnly(Run(ids, es), first)
  {
    if es == [] {
      first := "";
    } else {
      var before := es[..|es| - 1];
      assert forall i | 0 <= i < |before| :: before[i] == es[i];
      first := JoinRun(ids, before);
      first := JoinStep(Run(ids, before), es[|es| - 1], first);
    }
  }

  // ------------------------------------------------------------------- leaving, promoting

  lemma Next(ids: set<NodeId>, es: seq<Event>, ev: Event)
    ensures Run(ids, es + [ev]) == Step(Run(ids, es), ev)
  {
    assert (es + [ev])[..|es + [ev]| - 1] == es;
  }

  /** `a` is alone and leads, `b` joins, `a` leaves with its flag, `b` is alone and leads the same
      term, and `a` comes back. */
  function LeaveAndReturn(a: NodeId, b: NodeId): seq<Event> {
    [] + [Join(a)] + [Handle(R.Timeout(a))] + [Join(b)] + [Leave(a)] + [Handle(R.Timeout(b))] + [Join(a)]
  }

  lemma Alone(y: System, n: NodeId)
    requires n in y.replicas && y.members == {n} && y.replicas[n].currentTerm == 0
    ensures var y' := Step(y, Handle(R.Timeout(n)));
            && y'.members == {n} && n in y'.replicas && y'.replicas == y.replicas[n := y'.replicas[n]]
            && y'.replicas[n].isLeader && y'.replicas[n].currentTerm == 1
  {
  }

  lemma ReturnedLeaderLeads(ids: set<NodeId>, a: NodeId, b: NodeId)
    requires a in ids && b in ids && a != b
    ensures BothLead(Run(ids, LeaveAndReturn(a, b)), a, b)
    ensures Allowed(LeaveAndReturn(a, b), true, false)
  {
    var e1: seq<Event> := [] + [Join(a)];
    var e2 := e1 + [Handle(R.Timeout(a))];
    var e3 := e2 + [Join(b)];
    var e4 := e3 + [Leave(a)];
    var e5 := e4 + [Handle(R.Timeout(b))];
    Next(ids, [], Join(a));
    Next(ids, e1, Handle(R.Timeout(a)));
    Next(ids, e2, Join(b));
    Next(ids, e3, Leave(a));
    Next(ids, e4, Handle(R.Timeout(b)));
    Next(ids, e5, Join(a));
    assert Run(ids, e1).members == {a};
    Alone(Run(ids, e1), a);
    assert Run(ids, e4).members == {b};
    Alone(Run(ids, e4), b);
  }

  function PromoteBoth(a: NodeId, b: NodeId): seq<Event> {
    [] + [Join(a)] + [Join(b)] + [Promote(a)] + [Promote(b)]
  }

  lemma PromotedMembersLead(ids: set<NodeId>, a: NodeId, b: NodeId)
    requires a in ids && b in ids && a != b
    ensures BothLead(Run(ids, PromoteBoth(a, b)), a, b)
    ensures Allowed(PromoteBoth(a, b), false, true)
  {
    var e1: seq<Event> := [] + [Join(a)];
    var e2 := e1 + [Join(b)];
    var e3 := e2 + [Promote(a)];
    Next(ids, [], Join(a));
    Next(ids, e1, Join(b));
    Next(ids, e2, Promote(a));
    Next(ids, e3, Promote(b));
  }

  ghost predicate Reachable(ids: set<NodeId>, a: NodeId, b: NodeId, leaving: bool, promoting: bool) {
    exists es :: Allowed(es, leaving, promoting) && BothLead(Run(ids, es), a, b)
  }

  /** Two members can lead the same term if and only if nodes may leave or be promoted from outside;
      joining alone, whatever the replicas receive, never gets there. */
  lemma TwoLeadersIff(ids: set<NodeId>, a: NodeId, b: NodeId, leaving: bool, promoting: bool)
    requires a in ids && b in ids && a != b
    ensures Reachable(ids, a, b, leaving, promoting) <==> leaving || promoting
  {
    if leaving {
      ReturnedLeaderLeads(ids, a, b);
      assert Allowed(LeaveAndReturn(a, b), leaving, promoting);
    } else if promoting {
      PromotedMembersLead(ids, a, b);
    } else if es :| Allowed(es, leaving, promoting) && BothLead(Run(ids, es), a, b) {
      var first := JoinRun(ids, es);
    }
  }
}
