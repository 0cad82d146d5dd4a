/** How far a replica commits and applies: never past what it was told, and in honest runs never past
    what somebody proposed. */
module RaftCommit {
  import opened Basics
  import opened RaftNode
  import opened RaftCluster
  import opened RaftElection
  import opened RaftApplied

  // ------------------------------------------------------------------------ one request

  /** A request succeeds exactly when it is accepted. Its commit index then counts if it is news, up
      to the last entry the request speaks of; otherwise the commit index stays. */
  lemma CommitAfterAppend(s: NodeState, req: AppendRequest)
    ensures var (s', resp) := OnAppendEntries(s, req);
            var c, end := s'.commitIndex, req.prevLogIndex + |req.entries|;
            && (resp.success <==> Accepts(s, req))
            && (!(resp.success && req.leaderCommit > s.commitIndex) ==> c == s.commitIndex)
            && (resp.success && req.leaderCommit > s.commitIndex ==>
                  && c <= req.leaderCommit && c <= end
                  && (c == req.leaderCommit || c == end))
  {
  }

  lemma {:induction false} FoundIsThere(log: seq<LogEntry>, index: nat)
    ensures FindEntry(log, index).Some? ==>
              FindEntry(log, index).value in log && FindEntry(log, index).value.index == index
  {
    if log != [] && log[0].index != index {
      FoundIsThere(log[1..], index);
    }
  }

  /** Whatever comes due lies behind the old mark and not behind the commit index. */
  lemma {:induction false} DueWithin(log: seq<LogEntry>, from: nat, end: nat)
    ensures forall e | e in Due(log, from, end) :: e in log && from < e.index <= end
    decreases end
  {
    if from < end {
      DueWithin(log, from, end - 1);
      FoundIsThere(log, end);
    }
  }

  // ------------------------------------------------------------------------ whole runs

  /** The event tells `n` that everything up to `k` is committed: by an append request it accepts,
      whose commit index and last entry reach `k`, by a snapshot or by a proposal of its own. */
  predicate Tells(c: Cluster, e: Event, n: NodeId, k: nat) {
    && e.n == n && n in c.nodes
    && var s := c.nodes[n];
       match e
       case DeliverAppend(_, req) =>
         Accepts(s, req) && k <= req.leaderCommit && k <= req.prevLogIndex + |req.entries|
       case DeliverSnapshot(_, req) =>
         req.term >= s.currentTerm && req.done && k <= req.lastIncludedIndex
       case Propose(_, _, _) => k <= |s.log| + 1
       case _ => false
  }

  ghost predicate Told(ids: set<NodeId>, es: seq<Event>, n: NodeId, k: nat) {
    k == 0 || exists i | 0 <= i < |es| :: Tells(Run(Init(ids), es[..i]), es[i], n, k)
  }

  lemma ToldBefore(ids: set<NodeId>, es: seq<Event>, n: NodeId, k: nat, j: nat)
    requires j <= |es| && Told(ids, es[..j], n, k)
    ensures Told(ids, es, n, k)
  {
    if k > 0 {
      var i :| 0 <= i < j && Tells(Run(Init(ids), es[..j][..i]), es[..j][i], n, k);
      assert es[..j][..i] == es[..i];
      assert Tells(Run(Init(ids), es[..i]), es[i], n, k);
    }
  }

  /** The applied mark keeps up with the commit index and passes its old place only as far as the
      event tells. */
  lemma MarkStep(c: Cluster, e: Event, n: NodeId)
    requires n in c.nodes && c.nodes[n].commitIndex <= c.nodes[n].lastApplied
    ensures var c' := Step(c, e);
            && n in c'.nodes && c'.nodes[n].commitIndex <= c'.nodes[n].lastApplied
            && (c'.nodes[n].lastApplied <= c.nodes[n].lastApplied
                || Tells(c, e, n, c'.nodes[n].lastApplied))
  {
    if e.n == n && e.DeliverAppend? {
      CommitAfterAppend(c.nodes[n], e.append);
    }
  }

  lemma AppliedStep(c: Cluster, e: Event, n: NodeId, entry: LogEntry)
    requires n in c.nodes && c.nodes[n].commitIndex <= c.nodes[n].lastApplied
    requires n in Step(c, e).nodes && entry in Step(c, e).nodes[n].applied
    ensures entry in c.nodes[n].applied || Tells(c, e, n, entry.index)
  {
    var s, s' := c.nodes[n], Step(c, e).nodes[n];
    if e.n == n {
      match e
      case DeliverAppend(_, req) =>
        if Accepts(s, req) {
          CommitAfterAppend(s, req);
          AcceptedState(s, req);
          DueWithin(s'.log, s.lastApplied, s'.commitIndex);
        }
      case Propose(_, cmd, now) => DueWithin(s'.log, s.lastApplied, s'.commitIndex);
      case _ =>
    }
  }

  ghost predicate WithinTold(ids: set<NodeId>, es: seq<Event>, n: NodeId, s: NodeState) {
    && s.commitIndex <= s.lastApplied && Told(ids, es, n, s.lastApplied)
    && forall e | e in s.applied :: Told(ids, es, n, e.index)
  }

  lemma ToldNow(ids: set<NodeId>, es: seq<Event>, n: NodeId, k: nat, m: nat)
    requires es != [] && Told(ids, es[..|es| - 1], n, k)
    requires m <= k || Tells(Run(Init(ids), es[..|es| - 1]), es[|es| - 1], n, m)
    ensures Told(ids, es, n, m)
  {
    var j := |es| - 1;
    if m <= k {
      ToldLess(ids, es[..j], n, k, m);
      ToldBefore(ids, es, n, m, j);
    } else {
      assert Tells(Run(Init(ids), es[..j]), es[j], n, m);
    }
  }

  lemma ToldLess(ids: set<NodeId>, es: seq<Event>, n: NodeId, k: nat, m: nat)
    requires Told(ids, es, n, k) && m <= k
    ensures Told(ids, es, n, m)
  {
    if m > 0 {
      var i :| 0 <= i < |es| && Tells(Run(Init(ids), es[..i]), es[i], n, k);
      assert Tells(Run(Init(ids), es[..i]), es[i], n, m);
    }
  }

  /** In every run whatsoever no replica commits, counts as applied or hands to its state machine
      anything past what it was told, and it never leaves a committed index unapplied. */
  lemma {:induction false} CommitsWithinTold(ids: set<NodeId>, es: seq<Event>, n: NodeId)
    requires n in ids
    ensures n in Run(Init(ids), es).nodes && WithinTold(ids, es, n, Run(Init(ids), es).nodes[n])
  {
    if es != [] {
      var before, e := es[..|es| - 1], es[|es| - 1];
      var c := Run(Init(ids), before);
      CommitsWithinTold(ids, before, n);
      MarkStep(c, e, n);
      var s, s' := c.nodes[n], Run(Init(ids), es).nodes[n];
      ToldNow(ids, es, n, s.lastApplied, s'.lastApplied);
      forall entry | entry in s'.applied ensures Told(ids, es, n, entry.index) {
        AppliedStep(c, e, n, entry);
        ToldNow(ids, es, n, if entry in s.applied then entry.index else 0, entry.index);
      }
    }
  }

  // ------------------------------------------------------------------------ honest runs

  /** Senders announce no more than they have committed, what is delivered was sent, and no snapshot
      is installed. */
  predicate Honest(c: Cluster, e: Event) {
    && (e.DeliverAppend? ==> e.append in c.sent)
    && (e.DeliverSnapshot? ==> !e.snapshot.done)
    && (e.Send? && e.n in c.nodes ==> e.commit <= c.nodes[e.n].commitIndex)
  }

  /** The event proposes an entry at position `k` or behind it. */
  predicate Proposes(c: Cluster, e: Event, k: nat) {
    e.Propose? && e.n in c.nodes && k <= |c.nodes[e.n].log| + 1
  }

  ghost predicate SomeoneProposed(ids: set<NodeId>, es: seq<Event>, k: nat) {
    k == 0 || exists i | 0 <= i < |es| :: Proposes(Run(Init(ids), es[..i]), es[i], k)
  }

  lemma ProposedNow(ids: set<NodeId>, es: seq<Event>, k: nat, m: nat)
    requires es != [] && SomeoneProposed(ids, es[..|es| - 1], k)
    requires m <= k || Proposes(Run(Init(ids), es[..|es| - 1]), es[|es| - 1], m)
    ensures SomeoneProposed(ids, es, m)
  {
    var j := |es| - 1;
    if 0 < m <= k {
      var i :| 0 <= i < j && Proposes(Run(Init(ids), es[..j][..i]), es[..j][i], k);
      assert es[..j][..i] == es[..i];
      assert Proposes(Run(Init(ids), es[..i]), es[i], m);
    } else if m > 0 {
      assert Proposes(Run(Init(ids), es[..j]), es[j], m);
    }
  }

  ghost predicate AllProposed(ids: set<NodeId>, es: seq<Event>) {
    var c := Run(Init(ids), es);
    && (forall n | n in c.nodes :: SomeoneProposed(ids, es, c.nodes[n].lastApplied))
    && (forall req | req in c.sent :: SomeoneProposed(ids, es, req.leaderCommit))
  }

  lemma MarkProposed(ids: set<NodeId>, es: seq<Event>, n: NodeId)
    requires es != [] && AllProposed(ids, es[..|es| - 1]) && n in ids
    requires Honest(Run(Init(ids), es[..|es| - 1]), es[|es| - 1])
    ensures n in Run(Init(ids), es).nodes
    ensures SomeoneProposed(ids, es, Run(Init(ids), es).nodes[n].lastApplied)
  {
    var c, e := Run(Init(ids), es[..|es| - 1]), es[|es| - 1];
    CommitsWithinTold(ids, es[..|es| - 1], n);
    MarkStep(c, e, n);
    var m := Step(c, e).nodes[n].lastApplied;
    if m <= c.nodes[n].lastApplied {
      ProposedNow(ids, es, c.nodes[n].lastApplied, m);
    } else {
      ProposedNow(ids, es, if e.DeliverAppend? then e.append.leaderCommit else 0, m);
    }
  }

  lemma SentProposed(ids: set<NodeId>, es: seq<Event>, req: AppendRequest)
    requires es != [] && AllProposed(ids, es[..|es| - 1]) && req in Run(Init(ids), es).sent
    requires Honest(Run(Init(ids), es[..|es| - 1]), es[|es| - 1])
    ensures SomeoneProposed(ids, es, req.leaderCommit)
  {
    var c, e := Run(Init(ids), es[..|es| - 1]), es[|es| - 1];
    if req in c.sent {
      ProposedNow(ids, es, req.leaderCommit, req.leaderCommit);
    } else {
      assert e.Send? && e.n in c.nodes;
      MembersStay(ids, es[..|es| - 1]);
      CommitsWithinTold(ids, es[..|es| - 1], e.n);
      ProposedNow(ids, es, c.nodes[e.n].lastApplied, req.leaderCommit);
    }
  }

  lemma {:induction false} AllProposedRun(ids: set<NodeId>, es: seq<Event>)
    requires Keeps(Init(ids), es, Honest)
    ensures AllProposed(ids, es)
  {
    if es != [] {
      var c' := Run(Init(ids), es);
      AllProposedRun(ids, es[..|es| - 1]);
      MembersStay(ids, es);
      forall n | n in c'.nodes ensures SomeoneProposed(ids, es, c'.nodes[n].lastApplied) {
        MarkProposed(ids, es, n);
      }
      forall req | req in c'.sent ensures SomeoneProposed(ids, es, req.leaderCommit) {
        SentProposed(ids, es, req);
      }
    }
  }

  /** In every honest run no replica has committed, or counts as applied, an index that nobody has
      proposed. */
  lemma CommitsOnlyProposed(ids: set<NodeId>, es: seq<Event>, n: NodeId)
    requires Keeps(Init(ids), es, Honest) && n in ids
    ensures n in Run(Init(ids), es).nodes
    ensures var s := Run(Init(ids), es).nodes[n];
            s.commitIndex <= s.lastApplied && SomeoneProposed(ids, es, s.lastApplied)
  {
    CommitsWithinTold(ids, es, n);
    AllProposedRun(ids, es);
  }
}
