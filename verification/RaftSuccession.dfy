/** Two runs that hand an entry on, or fail to.

    In both, `a` wins term 1 with the vote of `b`, proposes an entry and `b` stores it, so that a
    majority has it. In the first the next winner asks truthfully and has the entry; in the second
    it boasts and has nothing. The first run meets every hypothesis of Leader Completeness, the
    second all but the truth of the requests. */
module RaftSuccession {
  import opened Basics
  import opened RaftNode
  import opened RaftCluster
  import opened RaftElection
  import opened RaftLogMatching
  import opened RaftApplied
  import opened RaftCompleteness
  import opened RaftOverwrite

  function First(a: NodeId, x: Command): AppendRequest {
    AppendRequest(1, a, 0, 0, [Applies(1, x)], 0)
  }

  lemma FirstWin(a: NodeId, b: NodeId, c: NodeId, x: Command)
    requires a != b && a != c && b != c && a != "" && b != "" && c != ""
    ensures var s, first := Init({a, b, c}), Round(a, b, 1, x);
            && Keeps(s, first, OnlyElectedAct) && Won(Run(s, first), Run(s, first), a, b, c, 1, x)
            && Blank(Run(s, first).nodes[c], c) && Run(s, first).nodes[c].currentTerm == 0
  {
    StartReady(a, b, c);
    assert [] + Round(a, b, 1, x) == Round(a, b, 1, x);
    WinRun(Init({a, b, c}), [], a, b, c, 1, x);
  }

  lemma StoreFirst(t: Cluster, a: NodeId, b: NodeId, x: Command)
    requires a in t.nodes && b in t.nodes && a != b && Proposed(t.nodes[a], a, 1, x)
    requires Blank(t.nodes[b], b) && t.nodes[b].currentTerm == 1
    ensures var t1 := Step(t, Send(a, 0, 1, 0));
            var t2 := Step(t1, DeliverAppend(b, First(a, x)));
            && t1.nodes == t.nodes && t1.votes == t.votes && First(a, x) in t1.sent
            && b in t2.nodes && t2.nodes == t.nodes[b := t2.nodes[b]] && t2.votes == t.votes
            && t2.nodes[b].log == [Applies(1, x)] && t2.nodes[b].currentTerm == 1
            && t2.nodes[b].votedFor == t.nodes[b].votedFor
  {
    assert t.nodes[a].log[0..1] == [Applies(1, x)];
    assert AgreeLen([], 0, [Applies(1, x)]) == 0;
    assert [] + [Applies(1, x)][0..] == [Applies(1, x)];
  }

  lemma OnwardTwo(s: Cluster, es: seq<Event>, e1: Event, e2: Event, t: Cluster, t1: Cluster,
                  t2: Cluster, ok: (Cluster, Event) -> bool)
    requires Run(s, es) == t && Keeps(s, es, ok)
    requires Step(t, e1) == t1 && Step(t1, e2) == t2 && ok(t, e1) && ok(t1, e2)
    ensures Run(s, es + [e1] + [e2]) == t2 && Keeps(s, es + [e1] + [e2], ok)
  {
    Onward(s, es, e1, t, t1, ok);
    Onward(s, es + [e1], e2, t1, t2, ok);
  }

  lemma StoresEarlier(ids: set<NodeId>, es: seq<Event>, es': seq<Event>, n: NodeId,
                      x: seq<LogEntry>)
    requires es <= es' && Stored(Run(Init(ids), es), n, 1, x)
    ensures Stores(ids, es', n, 1, x)
  {
    assert es'[..|es|] == es;
    assert Stored(StateAfter(ids, es', |es|), n, 1, x);
  }

  lemma StoredByTwo(a: NodeId, b: NodeId, c: NodeId, x: Command, es1: seq<Event>,
                    es2: seq<Event>, es: seq<Event>)
    requires a != b && a != c && b != c && es1 <= es && es2 <= es
    requires Stored(Run(Init({a, b, c}), es1), a, 1, [Applies(1, x)])
    requires Stored(Run(Init({a, b, c}), es2), b, 1, [Applies(1, x)])
    ensures Committed({a, b, c}, es, 1, [Applies(1, x)], {a, b})
  {
    StoresEarlier({a, b, c}, es1, es, a, [Applies(1, x)]);
    StoresEarlier({a, b, c}, es2, es, b, [Applies(1, x)]);
    PairOfThree(a, b, c);
  }

  // ------------------------------------------------------------------ requests that tell the truth

  /** Elected nodes act, and a vote request arrives while its candidate still stands. */
  predicate Candid(c: Cluster, e: Event) {
    OnlyElectedAct(c, e) && (e.DeliverVote? ==> Stands(c, e.vote))
  }

  lemma {:induction false} CandidRunsAreTruthful(ids: set<NodeId>, es: seq<Event>)
    requires Keeps(Init(ids), es, Candid)
    ensures Keeps(Init(ids), es, OnlyElectedAct) && Truthful(ids, es)
  {
    if es != [] {
      var before := es[..|es| - 1];
      CandidRunsAreTruthful(ids, before);
      forall k | 0 <= k < |es| ensures TrueRequest(ids, es, k) {
        if k < |before| {
          TrueStill(ids, before, es, k);
        } else if es[k].DeliverVote? {
          assert Stands(StateAfter(ids, es, k), es[k].vote);
        }
      }
    }
  }

  lemma TrueStill(ids: set<NodeId>, before: seq<Event>, es: seq<Event>, k: nat)
    requires before <= es && k < |before| && TrueRequest(ids, before, k)
    ensures TrueRequest(ids, es, k)
  {
    if es[k].DeliverVote? {
      var j :| 0 <= j <= k && Stands(StateAfter(ids, before, j), before[k].vote);
      assert before[..j] == es[..j];
      assert Stands(StateAfter(ids, es, j), es[k].vote);
    }
  }

  /** What `b` asks of `c` once it has the entry. */
  function Asks(b: NodeId): VoteRequest {
    VoteRequest(2, b, 1, 1)
  }

  /** `a` sends what it proposed, `b` stores it and stands, and `c` votes for `b`. */
  function Succeed(a: NodeId, b: NodeId, c: NodeId, x: Command): seq<Event> {
    [Send(a, 0, 1, 0), DeliverAppend(b, First(a, x)), Timeout(b), DeliverVote(c, Asks(b))]
  }

  lemma StandWith(t: Cluster, b: NodeId, x: Command)
    requires b in t.nodes && |t.nodes.Keys| == 3 && t.nodes[b].id == b
    requires t.nodes[b].currentTerm == 1 && t.nodes[b].log == [Applies(1, x)]
    ensures var t' := Step(t, Timeout(b));
            && b in t'.nodes && t'.nodes == t.nodes[b := t'.nodes[b]]
            && t'.nodes[b].currentTerm == 2 && t'.nodes[b].log == [Applies(1, x)]
            && Vote(2, b, b) in t'.votes && Stands(t', Asks(b))
  {
  }

  lemma AskGranted(t: Cluster, b: NodeId, c: NodeId)
    requires c in t.nodes && Blank(t.nodes[c], c) && t.nodes[c].currentTerm == 0
    ensures var t' := Step(t, DeliverVote(c, Asks(b)));
            && c in t'.nodes && t'.nodes == t.nodes[c := t'.nodes[c]]
            && Vote(2, c, b) in t'.votes && t.votes <= t'.votes
  {
  }

  lemma SucceedSteps(t: Cluster, a: NodeId, b: NodeId, c: NodeId, x: Command)
    returns (t1: Cluster, t2: Cluster, t3: Cluster, t4: Cluster)
    requires Won(t, t, a, b, c, 1, x) && Blank(t.nodes[c], c) && t.nodes[c].currentTerm == 0
    ensures var r := Succeed(a, b, c, x);
            && t1 == Step(t, r[0]) && t2 == Step(t1, r[1]) && t3 == Step(t2, r[2])
            && t4 == Step(t3, r[3])
            && Candid(t, r[0]) && Candid(t1, r[1]) && Candid(t2, r[2]) && Candid(t3, r[3])
    ensures Stored(t, a, 1, [Applies(1, x)]) && Stored(t2, b, 1, [Applies(1, x)])
    ensures b in t4.nodes && t4.nodes[b].currentTerm == 2 && Elected(t4, 2, b)
  {
    var r := Succeed(a, b, c, x);
    t1 := Step(t, r[0]);
    t2 := Step(t1, r[1]);
    t3 := Step(t2, r[2]);
    t4 := Step(t3, r[3]);
    StoreFirst(t, a, b, x);
    assert t2.nodes.Keys == t.nodes.Keys;
    StandWith(t2, b, x);
    assert t3.nodes.Keys == t.nodes.Keys;
    AskGranted(t3, b, c);
    assert t4.nodes.Keys == t.nodes.Keys;
    TwoOfThree(t4, 2, b, b, c);
  }

  lemma RoundIsCandid(s: Cluster, a: NodeId, b: NodeId, c: NodeId, x: Command)
    requires Ready(s, a, b, c, 1)
    ensures Keeps(s, Round(a, b, 1, x), Candid)
  {
    var r := Round(a, b, 1, x);
    var t1, t2, t3 := Win(s, a, b, c, 1, x);
    assert Stands(t1, r[1].vote) by { Campaign(s, a); }
    OnwardTwo(s, [], r[0], r[1], s, t1, t2, Candid);
    Onward(s, [] + [r[0]] + [r[1]], r[2], t2, t3, Candid);
    assert [] + [r[0]] + [r[1]] + [r[2]] == r;
  }

  lemma SucceedRun(s: Cluster, es: seq<Event>, a: NodeId, b: NodeId, c: NodeId, x: Command)
    returns (es2: seq<Event>, es4: seq<Event>)
    requires Keeps(s, es, Candid) && Won(Run(s, es), Run(s, es), a, b, c, 1, x)
    requires Blank(Run(s, es).nodes[c], c) && Run(s, es).nodes[c].currentTerm == 0
    ensures es <= es2 <= es4 && Keeps(s, es4, Candid)
    ensures Stored(Run(s, es), a, 1, [Applies(1, x)]) && Stored(Run(s, es2), b, 1, [Applies(1, x)])
    ensures var t := Run(s, es4);
            b in t.nodes && t.nodes[b].currentTerm == 2 && Elected(t, 2, b)
  {
    var t, r := Run(s, es), Succeed(a, b, c, x);
    var t1, t2, t3, t4 := SucceedSteps(t, a, b, c, x);
    es2 := es + [r[0]] + [r[1]];
    OnwardTwo(s, es, r[0], r[1], t, t1, t2, Candid);
    OnwardTwo(s, es2, r[2], r[3], t2, t3, t4, Candid);
    es4 := es2 + [r[2]] + [r[3]];
  }

  /** The hypotheses of Leader Completeness can all be met: a majority stored the entry, every
      request was truthful, and a node was elected in the next term. So it has the entry. */
  lemma TruthfulVoteKeepsEntry(a: NodeId, b: NodeId, c: NodeId, x: Command)
    returns (es: seq<Event>)
    requires a != b && a != c && b != c && a != "" && b != "" && c != ""
    ensures var t := Run(Init({a, b, c}), es);
            && Keeps(Init({a, b, c}), es, OnlyElectedAct) && Truthful({a, b, c}, es)
            && Committed({a, b, c}, es, 1, [Applies(1, x)], {a, b})
            && b in t.nodes && t.nodes[b].currentTerm == 2 && Elected(t, 2, b)
            && [Applies(1, x)] <= t.nodes[b].log
  {
    var es2: seq<Event>;
    FirstWin(a, b, c, x);
    StartReady(a, b, c);
    RoundIsCandid(Init({a, b, c}), a, b, c, x);
    es2, es := SucceedRun(Init({a, b, c}), Round(a, b, 1, x), a, b, c, x);
    StoredByTwo(a, b, c, x, Round(a, b, 1, x), es2, es);
    CandidRunsAreTruthful({a, b, c}, es);
    assert es[..|es|] == es;
    LeaderCompleteness({a, b, c}, es, 1, [Applies(1, x)], {a, b}, |es|, b);
  }

  // ----------------------------------------------------------------------- requests that boast

  /** A request that claims a log no one has. */
  function Boast(c: NodeId): VoteRequest {
    VoteRequest(2, c, 9, 9)
  }

  /** `a` sends what it proposed, `b` stores it, and `c`, which has nothing, stands twice and asks
      `b` for its vote. */
  function Outvote(a: NodeId, b: NodeId, c: NodeId, x: Command): seq<Event> {
    [Send(a, 0, 1, 0), DeliverAppend(b, First(a, x)), Timeout(c), Timeout(c), DeliverVote(b, Boast(c))]
  }

  lemma StandTwice(t: Cluster, c: NodeId)
    requires c in t.nodes && |t.nodes.Keys| == 3 && Blank(t.nodes[c], c)
    requires t.nodes[c].currentTerm == 0
    ensures var t1 := Step(t, Timeout(c));
            var t2 := Step(t1, Timeout(c));
            && c in t1.nodes && t1.nodes[c].currentTerm == 1
            && c in t2.nodes && t2.nodes == t.nodes[c := t2.nodes[c]]
            && Blank(t2.nodes[c], c) && t2.nodes[c].currentTerm == 2
            && Vote(2, c, c) in t2.votes
  {
    Campaign(t, c);
    assert Step(t, Timeout(c)).nodes.Keys == t.nodes.Keys;
    Campaign(Step(t, Timeout(c)), c);
  }

  lemma BoastGranted(t: Cluster, b: NodeId, c: NodeId, x: Command)
    requires b in t.nodes && t.nodes[b].currentTerm == 1 && t.nodes[b].log == [Applies(1, x)]
    ensures var t' := Step(t, DeliverVote(b, Boast(c)));
            && b in t'.nodes && t'.nodes == t.nodes[b := t'.nodes[b]]
            && Vote(2, b, c) in t'.votes && t.votes <= t'.votes
  {
  }

  /** The states of that run. */
  lemma OutvoteSteps(t: Cluster, a: NodeId, b: NodeId, c: NodeId, x: Command)
    returns (t1: Cluster, t2: Cluster, t3: Cluster, t4: Cluster, t5: Cluster)
    requires Won(t, t, a, b, c, 1, x) && Blank(t.nodes[c], c) && t.nodes[c].currentTerm == 0
    ensures var r := Outvote(a, b, c, x);
            && t1 == Step(t, r[0]) && t2 == Step(t1, r[1]) && t3 == Step(t2, r[2])
            && t4 == Step(t3, r[3]) && t5 == Step(t4, r[4])
            && OnlyElectedAct(t, r[0]) && OnlyElectedAct(t1, r[1]) && OnlyElectedAct(t2, r[2])
            && OnlyElectedAct(t3, r[3]) && OnlyElectedAct(t4, r[4])
    ensures Stored(t, a, 1, [Applies(1, x)]) && Stored(t2, b, 1, [Applies(1, x)])
    ensures c in t5.nodes && t5.nodes[c].currentTerm == 2 && t5.nodes[c].log == [] && Elected(t5, 2, c)
  {
    var r := Outvote(a, b, c, x);
    t1 := Step(t, r[0]);
    t2 := Step(t1, r[1]);
    t3 := Step(t2, r[2]);
    t4 := Step(t3, r[3]);
    t5 := Step(t4, r[4]);
    StoreFirst(t, a, b, x);
    assert t2.nodes.Keys == t.nodes.Keys;
    StandTwice(t2, c);
    assert t4.nodes.Keys == t.nodes.Keys;
    BoastGranted(t4, b, c, x);
    assert t5.nodes.Keys == t.nodes.Keys;
    TwoOfThree(t5, 2, c, b, c);
  }

  lemma OutvoteRun(s: Cluster, es: seq<Event>, a: NodeId, b: NodeId, c: NodeId, x: Command)
    returns (es2: seq<Event>, es5: seq<Event>)
    requires Keeps(s, es, OnlyElectedAct) && Won(Run(s, es), Run(s, es), a, b, c, 1, x)
    requires Blank(Run(s, es).nodes[c], c) && Run(s, es).nodes[c].currentTerm == 0
    ensures es <= es2 <= es5 && Keeps(s, es5, OnlyElectedAct)
    ensures Stored(Run(s, es), a, 1, [Applies(1, x)]) && Stored(Run(s, es2), b, 1, [Applies(1, x)])
    ensures var t := Run(s, es5);
            c in t.nodes && t.nodes[c].currentTerm == 2 && t.nodes[c].log == [] && Elected(t, 2, c)
  {
    var t, r := Run(s, es), Outvote(a, b, c, x);
    var t1, t2, t3, t4, t5 := OutvoteSteps(t, a, b, c, x);
    es2 := es + [r[0]] + [r[1]];
    OnwardTwo(s, es, r[0], r[1], t, t1, t2, OnlyElectedAct);
    OnwardTwo(s, es2, r[2], r[3], t2, t3, t4, OnlyElectedAct);
    Onward(s, es2 + [r[2]] + [r[3]], r[4], t4, t5, OnlyElectedAct);
    es5 := es2 + [r[2]] + [r[3]] + [r[4]];
  }

  /** Without truthful requests completeness fails: a majority stored the entry in its term, and a
      node that never had it is elected in the next. */
  lemma UntruthfulVoteLosesEntry(a: NodeId, b: NodeId, c: NodeId, x: Command)
    returns (es: seq<Event>)
    requires a != b && a != c && b != c && a != "" && b != "" && c != ""
    ensures var t := Run(Init({a, b, c}), es);
            && Keeps(Init({a, b, c}), es, OnlyElectedAct)
            && Committed({a, b, c}, es, 1, [Applies(1, x)], {a, b})
            && c in t.nodes && t.nodes[c].currentTerm == 2 && Elected(t, 2, c) && t.nodes[c].log == []
  {
    var es2: seq<Event>;
    FirstWin(a, b, c, x);
    es2, es := OutvoteRun(Init({a, b, c}), Round(a, b, 1, x), a, b, c, x);
    StoredByTwo(a, b, c, x, Round(a, b, 1, x), es2, es);
  }
}
