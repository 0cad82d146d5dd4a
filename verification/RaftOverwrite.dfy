/** What elected leaders can do to applied entries.

    A proposal is committed and applied by the leader alone, so a leader of a later term that never
    saw it can apply another command at the same position and then overwrite it. The run below
    shows this for every three named replicas and every pair of commands. */
module RaftOverwrite {
  import opened Basics
  import opened RaftNode
  import opened RaftCluster
  import opened RaftElection
  import opened RaftLogMatching
  import opened RaftApplied

  /** `m` stands for the term, `n` votes for it, and `m` proposes `x`. */
  function Round(m: NodeId, n: NodeId, term: uint64, x: Command): seq<Event> {
    [Timeout(m), DeliverVote(n, VoteRequest(term, m, 0, 0)), Propose(m, x, 0)]
  }

  /** `a` wins term 1 and applies `x`; `b` wins term 2 without having heard of it and applies `y`. */
  function Diverge(a: NodeId, b: NodeId, c: NodeId, x: Command, y: Command): seq<Event> {
    Round(a, b, 1, x) + Round(b, c, 2, y)
  }

  function Applies(term: uint64, x: Command): LogEntry {
    LogEntry(term, 1, x, 0, "cluster-internal")
  }

  /** A replica whose log is empty. */
  predicate Blank(s: NodeState, id: NodeId) {
    s.id == id && s.log == [] && s.applied == [] && s.commitIndex == 0 && s.lastApplied == 0
  }

  /** A replica that has proposed one command in the term and applied it. */
  predicate Proposed(s: NodeState, id: NodeId, term: uint64, x: Command) {
    && s.id == id && s.currentTerm == term && s.log == [Applies(term, x)]
    && s.applied == s.log && s.commitIndex == 1 && s.lastApplied == 1
  }

  ghost predicate Three(s: Cluster, a: NodeId, b: NodeId, c: NodeId) {
    && s.nodes.Keys == {a, b, c} && |s.nodes.Keys| == 3
    && a != b && a != c && b != c && a != "" && b != "" && c != ""
  }

  lemma TwoOfThree(s: Cluster, term: uint64, who: NodeId, m: NodeId, n: NodeId)
    requires |s.nodes.Keys| == 3 && m in s.nodes && n in s.nodes && m != n
    requires Vote(term, m, who) in s.votes && Vote(term, n, who) in s.votes
    ensures Elected(s, term, who)
  {
    SubsetSize({m, n}, Supporters(s, term, who));
  }

  lemma Campaign(t: Cluster, m: NodeId)
    requires m in t.nodes && |t.nodes.Keys| == 3 && t.nodes[m].currentTerm < LAST_TERM
    requires Blank(t.nodes[m], m)
    ensures var t' := Step(t, Timeout(m));
            && m in t'.nodes && Blank(t'.nodes[m], m)
            && t'.nodes[m].currentTerm == t.nodes[m].currentTerm + 1
            && t'.nodes == t.nodes[m := t'.nodes[m]]
            && Vote(t.nodes[m].currentTerm + 1, m, m) in t'.votes
  {
  }

  lemma Support(t: Cluster, n: NodeId, term: uint64, m: NodeId)
    requires n in t.nodes && t.nodes[n].currentTerm < term && Blank(t.nodes[n], n)
    ensures var t' := Step(t, DeliverVote(n, VoteRequest(term, m, 0, 0)));
            && n in t'.nodes && Blank(t'.nodes[n], n) && t'.nodes[n].currentTerm == term
            && t'.nodes == t.nodes[n := t'.nodes[n]]
            && Vote(term, n, m) in t'.votes && t.votes <= t'.votes
  {
  }

  lemma ProposeFirst(t: Cluster, m: NodeId, term: uint64, x: Command)
    requires m in t.nodes && Blank(t.nodes[m], m) && t.nodes[m].currentTerm == term
    ensures var t' := Step(t, Propose(m, x, 0));
            && m in t'.nodes && Proposed(t'.nodes[m], m, term, x)
            && t'.nodes == t.nodes[m := t'.nodes[m]] && t'.votes == t.votes
  {
    var log := [Applies(term, x)];
    assert [] + log == log;
    assert FindEntry(log, 1) == Some(log[0]);
    assert Due(log, 0, 0) == [] && Due(log, 0, 1) == [] + EntryAt(log, 1);
  }

  ghost predicate Ready(t: Cluster, m: NodeId, n: NodeId, o: NodeId, term: uint64) {
    && Three(t, m, n, o) && Blank(t.nodes[m], m) && Blank(t.nodes[n], n)
    && t.nodes[m].currentTerm + 1 == term && t.nodes[n].currentTerm < term
  }

  /** `m` has won the term with the vote of `n` and has proposed `x`; `o` has not heard of it. */
  ghost predicate Won(t: Cluster, t': Cluster, m: NodeId, n: NodeId, o: NodeId, term: uint64,
                      x: Command)
  {
    && Three(t', m, n, o) && Proposed(t'.nodes[m], m, term, x) && Elected(t', term, m)
    && Blank(t'.nodes[n], n) && t'.nodes[n].currentTerm == term
    && o in t.nodes && t'.nodes[o] == t.nodes[o]
  }

  lemma Win(t: Cluster, m: NodeId, n: NodeId, o: NodeId, term: uint64, x: Command)
    returns (t1: Cluster, t2: Cluster, t3: Cluster)
    requires Ready(t, m, n, o, term)
    ensures var r := Round(m, n, term, x);
            && t1 == Step(t, r[0]) && t2 == Step(t1, r[1]) && t3 == Step(t2, r[2])
            && OnlyElectedAct(t, r[0]) && OnlyElectedAct(t1, r[1]) && OnlyElectedAct(t2, r[2])
    ensures Won(t, t3, m, n, o, term, x)
  {
    var r := Round(m, n, term, x);
    t1 := Step(t, r[0]);
    t2 := Step(t1, r[1]);
    t3 := Step(t2, r[2]);
    Campaign(t, m);
    Support(t1, n, term, m);
    ProposeFirst(t2, m, term, x);
    StepMembers(t, r[0]);
    StepMembers(t1, r[1]);
    StepMembers(t2, r[2]);
    TwoOfThree(t2, term, m, m, n);
    TwoOfThree(t3, term, m, m, n);
  }

  lemma Onward(s: Cluster, es: seq<Event>, e: Event, t: Cluster, t': Cluster,
               ok: (Cluster, Event) -> bool)
    requires Run(s, es) == t && Step(t, e) == t' && Keeps(s, es, ok) && ok(t, e)
    ensures Run(s, es + [e]) == t' && Keeps(s, es + [e], ok)
  {
    Next(s, es, e, ok);
  }

  lemma WinRun(s: Cluster, es: seq<Event>, m: NodeId, n: NodeId, o: NodeId, term: uint64,
               x: Command)
    requires Ready(Run(s, es), m, n, o, term) && Keeps(s, es, OnlyElectedAct)
    ensures Keeps(s, es + Round(m, n, term, x), OnlyElectedAct)
    ensures Won(Run(s, es), Run(s, es + Round(m, n, term, x)), m, n, o, term, x)
  {
    var r := Round(m, n, term, x);
    var t1, t2, t3 := Win(Run(s, es), m, n, o, term, x);
    Onward(s, es, r[0], Run(s, es), t1, OnlyElectedAct);
    Onward(s, es + [r[0]], r[1], t1, t2, OnlyElectedAct);
    Onward(s, es + [r[0]] + [r[1]], r[2], t2, t3, OnlyElectedAct);
    assert es + [r[0]] + [r[1]] + [r[2]] == es + r;
  }

  lemma StartReady(a: NodeId, b: NodeId, c: NodeId)
    requires a != b && a != c && b != c && a != "" && b != "" && c != ""
    ensures var s := Init({a, b, c});
            Ready(s, a, b, c, 1) && Blank(s.nodes[c], c) && s.nodes[c].currentTerm == 0
  {
    PairOfThree(a, b, c);
  }

  /** The next winner is the one who voted, with the vote of the one who has heard nothing. */
  lemma ReadyAgain(t: Cluster, t': Cluster, a: NodeId, b: NodeId, c: NodeId, x: Command)
    requires Won(t, t', a, b, c, 1, x) && Blank(t.nodes[c], c) && t.nodes[c].currentTerm == 0
    ensures Ready(t', b, c, a, 2)
  {
    assert {a, b, c} == {b, c, a};
  }

  /** Two leaders, each with a majority of its term, have applied different entries at the first
      position. */
  lemma ElectedLeadersDiverge(a: NodeId, b: NodeId, c: NodeId, x: Command, y: Command)
    requires a != b && a != c && b != c && a != "" && b != "" && c != ""
    ensures var t := Run(Init({a, b, c}), Diverge(a, b, c, x, y));
            && Keeps(Init({a, b, c}), Diverge(a, b, c, x, y), OnlyElectedAct)
            && Three(t, b, c, a) && Elected(t, 2, b)
            && Proposed(t.nodes[a], a, 1, x) && Proposed(t.nodes[b], b, 2, y)
            && t.nodes[a].applied[0] != t.nodes[b].applied[0]
  {
    var s, first := Init({a, b, c}), Round(a, b, 1, x);
    StartReady(a, b, c);
    assert [] + first == first;
    WinRun(s, [], a, b, c, 1, x);
    ReadyAgain(s, Run(s, first), a, b, c, x);
    WinRun(s, first, b, c, a, 2, y);
  }

  /** The second leader sends its entry, and it is delivered to the first. */
  function Overwrite(a: NodeId, b: NodeId, c: NodeId, x: Command, y: Command): seq<Event> {
    Diverge(a, b, c, x, y) + [Send(b, 0, 1, 0)] + [DeliverAppend(a, Carries(b, y))]
  }

  function Carries(b: NodeId, y: Command): AppendRequest {
    AppendRequest(2, b, 0, 0, [Applies(2, y)], 0)
  }

  lemma SendFirst(t: Cluster, b: NodeId, y: Command)
    requires b in t.nodes && Proposed(t.nodes[b], b, 2, y)
    ensures var t' := Step(t, Send(b, 0, 1, 0));
            Carries(b, y) in t'.sent && t'.nodes == t.nodes
  {
    assert t.nodes[b].log[0..1] == [Applies(2, y)];
  }

  lemma TakesOver(s: NodeState, b: NodeId, x: Command, y: Command)
    requires s.id != b && Proposed(s, s.id, 1, x)
    ensures Accepts(s, Carries(b, y)) && Overwrites(s, Carries(b, y))
    ensures var s' := OnAppendEntries(s, Carries(b, y)).0;
            s'.log == [Applies(2, y)] && s'.applied == [Applies(1, x)] && s'.lastApplied == 1
  {
    var req := Carries(b, y);
    assert s.log[0].term != req.entries[0].term;
    assert AgreeLen(s.log, 0, req.entries) == 0;
    assert s.log[..0] + req.entries[0..] == req.entries;
  }

  lemma OverwriteFrom(t: Cluster, a: NodeId, b: NodeId, x: Command, y: Command)
    requires a in t.nodes && b in t.nodes && a != b && b != "" && Elected(t, 2, b)
    requires Proposed(t.nodes[a], a, 1, x) && Proposed(t.nodes[b], b, 2, y)
    ensures var t1 := Step(t, Send(b, 0, 1, 0));
            var e := DeliverAppend(a, Carries(b, y));
            var t2 := Step(t1, e);
            && OnlyElectedAct(t, Send(b, 0, 1, 0)) && OnlyElectedAct(t1, e) && !Sparing(t1, e)
            && a in t2.nodes && t2.nodes[a].log == [Applies(2, y)]
            && t2.nodes[a].applied == [Applies(1, x)] && t2.nodes[a].lastApplied == 1
  {
    SendFirst(t, b, y);
    TakesOver(t.nodes[a], b, x, y);
  }

  /** Elected leaders alone can break the history of a replica: this run delivers only what a leader
      with a majority has sent, and ends with a log that no longer holds the applied entry. */
  lemma ElectedLeaderOverwrites(a: NodeId, b: NodeId, c: NodeId, x: Command, y: Command)
    requires a != b && a != c && b != c && a != "" && b != "" && c != ""
    ensures var es := Overwrite(a, b, c, x, y);
            var t := Run(Init({a, b, c}), es);
            && Keeps(Init({a, b, c}), es, OnlyElectedAct) && !Keeps(Init({a, b, c}), es, Sparing)
            && a in t.nodes && !History(t.nodes[a])
            && t.nodes[a].log == [Applies(2, y)] && t.nodes[a].applied == [Applies(1, x)]
  {
    var s, es := Init({a, b, c}), Diverge(a, b, c, x, y);
    var e1, e2 := Send(b, 0, 1, 0), DeliverAppend(a, Carries(b, y));
    ElectedLeadersDiverge(a, b, c, x, y);
    OverwriteFrom(Run(s, es), a, b, x, y);
    Next(s, es, e1, OnlyElectedAct);
    Next(s, es + [e1], e2, OnlyElectedAct);
    Next(s, es + [e1], e2, Sparing);
    Disagrees(Run(s, es + [e1] + [e2]).nodes[a], x, y);
  }

  lemma Disagrees(s: NodeState, x: Command, y: Command)
    requires s.log == [Applies(2, y)] && s.applied == [Applies(1, x)] && s.lastApplied == 1
    ensures !History(s)
  {
    assert s.log[..1][0] != s.applied[0];
  }

  /** A late request that ends below the commit index and announces a commit above it. */
  lemma CommitStepsBack(s: NodeState, x: Command)
    requires Proposed(s, s.id, 1, x)
    ensures var req := AppendRequest(1, "leader", 0, 0, [], 5);
            OnAppendEntries(s, req).0.commitIndex == 0 < s.commitIndex
  {
    CommitStepsBackIff(s, AppendRequest(1, "leader", 0, 0, [], 5));
  }

  lemma PairOfThree(a: NodeId, b: NodeId, c: NodeId)
    requires a != b && a != c && b != c
    ensures |{a, b}| == 2 && |{a, b, c}| == 3
  {
    assert |{a, b} + {c}| == 3;
    assert {a, b} + {c} == {a, b, c};
  }
}
