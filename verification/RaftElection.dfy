/** Election Safety: section 5.2 of the Raft paper, in a cluster whose members do not change. */
module RaftElection {
  import opened Basics
  import opened RaftNode
  import opened RaftCluster

  function Supporters(c: Cluster, term: uint64, candidate: NodeId): set<NodeId> {
    set n | n in c.nodes && Vote(term, n, candidate) in c.votes
  }

  predicate Elected(c: Cluster, term: uint64, candidate: NodeId) {
    |Supporters(c, term, candidate)| >= |c.nodes.Keys| / 2 + 1
  }

  /** A recorded vote of the voter's current term is still its vote. */
  ghost predicate VotesStand(c: Cluster) {
    forall v | v in c.votes ::
      && v.voter in c.nodes
      && v.term <= c.nodes[v.voter].currentTerm
      && (v.term == c.nodes[v.voter].currentTerm && v.candidate != "" ==>
            c.nodes[v.voter].votedFor == v.candidate)
  }

  /** No replica has voted for two named candidates in one term. */
  ghost predicate OneVoteEach(c: Cluster) {
    forall v, w | v in c.votes && w in c.votes && v.voter == w.voter && v.term == w.term ::
      v.candidate == w.candidate || v.candidate == "" || w.candidate == ""
  }

  ghost predicate VoteInv(c: Cluster) {
    VotesStand(c) && OneVoteEach(c)
  }

  lemma VotesStandStep(c: Cluster, e: Event)
    requires VotesStand(c) && NoWrap(c, e)
    ensures VotesStand(Step(c, e))
  {
    if e.n in c.nodes {
      StepTerms(c, e, e.n);
    }
  }

  lemma VotesStep(c: Cluster, e: Event)
    requires VoteInv(c) && NoWrap(c, e)
    ensures VoteInv(Step(c, e))
  {
    VotesStandStep(c, e);
  }

  lemma {:induction false} VotesRun(ids: set<NodeId>, es: seq<Event>)
    requires Keeps(Init(ids), es, NoWrap)
    ensures VoteInv(Run(Init(ids), es))
  {
    if es != [] {
      VotesRun(ids, es[..|es| - 1]);
      VotesStep(Run(Init(ids), es[..|es| - 1]), es[|es| - 1]);
    }
  }

  lemma QuorumsMeet(c: Cluster, term: uint64, a: NodeId, b: NodeId)
    requires Elected(c, term, a) && Elected(c, term, b)
    ensures exists n :: n in Supporters(c, term, a) && n in Supporters(c, term, b)
  {
    var x, y := Supporters(c, term, a), Supporters(c, term, b);
    if x * y == {} {
      SubsetSize(x + y, c.nodes.Keys);
    } else {
      var n :| n in x * y;
    }
  }

  lemma OneWinner(c: Cluster, term: uint64, a: NodeId, b: NodeId)
    requires VoteInv(c)
    requires a != "" && b != "" && Elected(c, term, a) && Elected(c, term, b)
    ensures a == b
  {
    QuorumsMeet(c, term, a, b);
    var n :| n in Supporters(c, term, a) && n in Supporters(c, term, b);
    assert Vote(term, n, a) in c.votes && Vote(term, n, b) in c.votes;
  }

  /** In every run without a wrapping term counter, whatever requests are delivered, at most one
      named candidate holds a majority in a term. */
  lemma ElectionSafety(ids: set<NodeId>, es: seq<Event>, term: uint64, a: NodeId, b: NodeId)
    requires Keeps(Init(ids), es, NoWrap)
    requires a != "" && b != ""
    requires Elected(Run(Init(ids), es), term, a) && Elected(Run(Init(ids), es), term, b)
    ensures a == b
  {
    VotesRun(ids, es);
    OneWinner(Run(Init(ids), es), term, a, b);
  }

  // --------------------------------------------------------- replicas that say they lead

  /** Role and flag agree, and a replica that leads has voted for itself and is alone: an election
      counts only the candidate's own vote. */
  predicate LeadsAlone(s: NodeState, n: NodeId, members: nat, votes: set<Vote>) {
    && s.id == n && (s.isLeader <==> s.role == Leader)
    && (s.isLeader ==> members <= 1 && Vote(s.currentTerm, n, n) in votes)
  }

  ghost predicate LeadersHold(c: Cluster) {
    forall n | n in c.nodes :: LeadsAlone(c.nodes[n], n, |c.nodes.Keys|, c.votes)
  }

  lemma OwnVoteStep(c: Cluster, e: Event)
    requires e.n in c.nodes && LeadsAlone(c.nodes[e.n], e.n, |c.nodes.Keys|, c.votes)
    ensures e.n in Step(c, e).nodes
    ensures LeadsAlone(Step(c, e).nodes[e.n], e.n, |c.nodes.Keys|, Step(c, e).votes)
  {
  }

  lemma OthersStep(c: Cluster, e: Event, n: NodeId)
    requires n in c.nodes && n != e.n
    ensures n in Step(c, e).nodes && Step(c, e).nodes[n] == c.nodes[n]
  {
  }

  lemma LeadersHoldStep(c: Cluster, e: Event)
    requires LeadersHold(c)
    ensures LeadersHold(Step(c, e))
  {
    var c' := Step(c, e);
    StepMembers(c, e);
    forall n | n in c'.nodes ensures LeadsAlone(c'.nodes[n], n, |c'.nodes.Keys|, c'.votes) {
      assert LeadsAlone(c.nodes[n], n, |c.nodes.Keys|, c.votes);
      if n == e.n {
        OwnVoteStep(c, e);
      } else {
        OthersStep(c, e, n);
      }
    }
  }

  /** With fixed members, in every run, wrapping terms and arbitrary requests included, a replica
      that says it leads holds a majority of the votes of its term and is the only member. */
  lemma {:induction false} LeaderHoldsMajority(ids: set<NodeId>, es: seq<Event>, n: NodeId)
    requires n in Run(Init(ids), es).nodes && Run(Init(ids), es).nodes[n].isLeader
    ensures Elected(Run(Init(ids), es), Run(Init(ids), es).nodes[n].currentTerm, n)
    ensures ids == {n}
  {
    var c := Run(Init(ids), es);
    LeadersHoldRun(ids, es);
    MembersStay(ids, es);
    assert n in Supporters(c, c.nodes[n].currentTerm, n);
    assert ids == {n} by {
      SubsetSize({n}, ids);
      if m :| m in ids && m != n {
        SubsetSize({m, n}, ids);
      }
    }
  }

  lemma {:induction false} LeadersHoldRun(ids: set<NodeId>, es: seq<Event>)
    ensures LeadersHold(Run(Init(ids), es))
  {
    if es != [] {
      LeadersHoldRun(ids, es[..|es| - 1]);
      LeadersHoldStep(Run(Init(ids), es[..|es| - 1]), es[|es| - 1]);
    }
  }

  lemma {:induction false} MembersStay(ids: set<NodeId>, es: seq<Event>)
    ensures Run(Init(ids), es).nodes.Keys == ids
  {
    if es != [] {
      MembersStay(ids, es[..|es| - 1]);
      StepMembers(Run(Init(ids), es[..|es| - 1]), es[|es| - 1]);
    }
  }

  // ------------------------------------------------ where the conditions come from

  /** A granted vote binds the voter for the rest of the term exactly when the candidate has a
      name: the empty vote is also how the replica says that it has not voted. */
  lemma GrantBinds(s: NodeState, first: VoteRequest, second: VoteRequest)
    requires OnRequestVote(s, first).1.voteGranted
    requires second.term == first.term && second.candidateId != first.candidateId
    requires UpToDate(s.log, second)
    ensures OnRequestVote(OnRequestVote(s, first).0, second).1.voteGranted
            <==> first.candidateId == ""
  {
  }

  lemma ElectionRaisesTerm(s: NodeState, peers: Option<set<NodeId>>)
    ensures OnElectionTimeout(s, peers).currentTerm > s.currentTerm
            <==> s.currentTerm < LAST_TERM
  {
  }

  /** Some replicas have voted for both candidates in the term, the others have not been heard of. */
  ghost predicate VotedTwice(c: Cluster, ids: set<NodeId>, left: set<NodeId>, term: uint64,
                             a: NodeId, b: NodeId)
  {
    && c.nodes.Keys == ids && left <= ids
    && (forall n | n in left :: c.nodes[n] == Fresh(n))
    && (forall n | n in ids - left :: Vote(term, n, a) in c.votes && Vote(term, n, b) in c.votes)
  }

  lemma AllSupport(c: Cluster, ids: set<NodeId>, term: uint64, a: NodeId, b: NodeId)
    requires VotedTwice(c, ids, {}, term, a, b) && ids != {}
    ensures Elected(c, term, a) && Elected(c, term, b)
  {
    assert Supporters(c, term, a) == ids && Supporters(c, term, b) == ids;
    var n :| n in ids;
    SubsetSize({n}, ids);
  }

  function AskVote(n: NodeId, term: uint64, candidate: NodeId): Event {
    DeliverVote(n, VoteRequest(term, candidate, 0, 0))
  }

  lemma Granted(c: Cluster, n: NodeId, term: uint64, candidate: NodeId)
    requires n in c.nodes && c.nodes[n].log == [] && c.nodes[n].currentTerm <= term
    requires c.nodes[n].currentTerm < term || c.nodes[n].votedFor == ""
    ensures var c' := Step(c, AskVote(n, term, candidate));
            && n in c'.nodes && c'.nodes == c.nodes[n := c'.nodes[n]]
            && c'.nodes[n].log == [] && c'.nodes[n].currentTerm == term
            && c'.nodes[n].votedFor == candidate
            && c'.votes == c.votes + {Vote(term, n, candidate)}
  {
  }

  lemma TwoGrants(c: Cluster, ids: set<NodeId>, left: set<NodeId>, b: NodeId, n: NodeId)
    returns (c1: Cluster, c2: Cluster)
    requires VotedTwice(c, ids, left, 0, "", b) && n in left
    ensures c1 == Step(c, AskVote(n, 0, "")) && c2 == Step(c1, AskVote(n, 0, b))
    ensures VotedTwice(c2, ids, left - {n}, 0, "", b)
  {
    c1 := Step(c, AskVote(n, 0, ""));
    c2 := Step(c1, AskVote(n, 0, b));
    Granted(c, n, 0, "");
    Granted(c1, n, 0, b);
  }

  lemma {:induction false} AllVoteTwice(ids: set<NodeId>, left: set<NodeId>, b: NodeId,
                                        before: seq<Event>) returns (es: seq<Event>)
    requires Keeps(Init(ids), before, NoWrap)
    requires VotedTwice(Run(Init(ids), before), ids, left, 0, "", b)
    ensures Keeps(Init(ids), es, NoWrap) && VotedTwice(Run(Init(ids), es), ids, {}, 0, "", b)
    decreases |left|
  {
    if left == {} {
      es := before;
    } else {
      var n :| n in left;
      var c1, c2 := TwoGrants(Run(Init(ids), before), ids, left, b, n);
      Next(Init(ids), before, AskVote(n, 0, ""), NoWrap);
      Next(Init(ids), before + [AskVote(n, 0, "")], AskVote(n, 0, b), NoWrap);
      es := AllVoteTwice(ids, left - {n}, b, before + [AskVote(n, 0, "")] + [AskVote(n, 0, b)]);
    }
  }

  /** The run wraps no counter and elects both candidates in the term. */
  ghost predicate BothElected(ids: set<NodeId>, es: seq<Event>, term: uint64, a: NodeId, b: NodeId) {
    && Keeps(Init(ids), es, NoWrap)
    && Elected(Run(Init(ids), es), term, a) && Elected(Run(Init(ids), es), term, b)
  }

  /** In every cluster with members all of them can vote for the empty id and then for any other
      candidate, in term 0. */
  lemma UnnamedCandidateBreaksSafety(ids: set<NodeId>, b: NodeId) returns (es: seq<Event>)
    requires ids != {}
    ensures BothElected(ids, es, 0, "", b)
  {
    es := AllVoteTwice(ids, ids, b, []);
    AllSupport(Run(Init(ids), es), ids, 0, "", b);
  }

  /** In every cluster with members, some run without a wrapping counter elects two candidates in
      one term if and only if one of them is the empty id. */
  lemma ElectionSafetyIff(ids: set<NodeId>, a: NodeId, b: NodeId)
    requires ids != {} && a != b
    ensures (exists es, term: uint64 :: BothElected(ids, es, term, a, b)) <==> a == "" || b == ""
  {
    if a == "" {
      var es := UnnamedCandidateBreaksSafety(ids, b);
    } else if b == "" {
      var es := UnnamedCandidateBreaksSafety(ids, a);
      assert BothElected(ids, es, 0, a, b);
    } else if es, term: uint64 :| BothElected(ids, es, term, a, b) {
      ElectionSafety(ids, es, term, a, b);
    }
  }

  // ------------------------------------------------------------------ wrapping counters

  /** A replica votes in term 1, is carried to the last term, starts an election there and is back
      in term 0; the next request of term 1 gets its vote again. */
  lemma WrapRound(c: Cluster, ids: set<NodeId>, left: set<NodeId>, a: NodeId, b: NodeId, n: NodeId)
    returns (c1: Cluster, c2: Cluster, c3: Cluster, c4: Cluster)
    requires VotedTwice(c, ids, left, 1, a, b) && n in left
    ensures c1 == Step(c, AskVote(n, 1, a)) && c2 == Step(c1, AskVote(n, LAST_TERM, a))
    ensures c3 == Step(c2, Timeout(n)) && c4 == Step(c3, AskVote(n, 1, b))
    ensures VotedTwice(c4, ids, left - {n}, 1, a, b)
  {
    c1 := Step(c, AskVote(n, 1, a));
    c2 := Step(c1, AskVote(n, LAST_TERM, a));
    c3 := Step(c2, Timeout(n));
    c4 := Step(c3, AskVote(n, 1, b));
    Granted(c, n, 1, a);
    Granted(c1, n, LAST_TERM, a);
    Wrapped(c2, n);
    Granted(c3, n, 1, b);
  }

  lemma Wrapped(c: Cluster, n: NodeId)
    requires n in c.nodes && c.nodes[n].currentTerm == LAST_TERM && c.nodes[n].log == []
    ensures var c' := Step(c, Timeout(n));
            && n in c'.nodes && c'.nodes == c.nodes[n := c'.nodes[n]]
            && c'.nodes[n].log == [] && c'.nodes[n].currentTerm == 0 && c.votes <= c'.votes
  {
  }

  lemma {:induction false} AllWrap(ids: set<NodeId>, left: set<NodeId>, a: NodeId, b: NodeId,
                                   before: seq<Event>) returns (es: seq<Event>)
    requires VotedTwice(Run(Init(ids), before), ids, left, 1, a, b)
    ensures VotedTwice(Run(Init(ids), es), ids, {}, 1, a, b)
    decreases |left|
  {
    if left == {} {
      es := before;
    } else {
      var n :| n in left;
      var c1, c2, c3, c4 := WrapRound(Run(Init(ids), before), ids, left, a, b, n);
      var es1 := before + [AskVote(n, 1, a)];
      var es2 := es1 + [AskVote(n, LAST_TERM, a)];
      var es3 := es2 + [Timeout(n)];
      Next(Init(ids), before, AskVote(n, 1, a), NoWrap);
      Next(Init(ids), es1, AskVote(n, LAST_TERM, a), NoWrap);
      Next(Init(ids), es2, Timeout(n), NoWrap);
      Next(Init(ids), es3, AskVote(n, 1, b), NoWrap);
      es := AllWrap(ids, left - {n}, a, b, es3 + [AskVote(n, 1, b)]);
    }
  }

  /** Once counters may wrap, every cluster with members can elect any two candidates in term 1. */
  lemma WrappedTermBreaksSafety(ids: set<NodeId>, a: NodeId, b: NodeId) returns (es: seq<Event>)
    requires ids != {}
    ensures Elected(Run(Init(ids), es), 1, a) && Elected(Run(Init(ids), es), 1, b)
  {
    es := AllWrap(ids, ids, a, b, []);
    AllSupport(Run(Init(ids), es), ids, 1, a, b);
  }
}
