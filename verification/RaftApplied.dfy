/** What the state machine has seen: exactly the first `lastApplied` entries of the log, in order
    and each once. Every event is either gentle, and keeps that, or breaks it. */
module RaftApplied {
  import opened Basics
  import opened RaftNode
  import opened RaftCluster
  import opened RaftLogMatching

  /** The applied history of a replica is a prefix of its log and nothing committed is overdue. */
  predicate History(s: NodeState) {
    s.commitIndex <= s.lastApplied <= |s.log| && s.applied == s.log[..s.lastApplied]
  }

  // ------------------------------------------------------------- the apply loop

  /** Looking up the indices above `from` and up to `end` finds the entries at those positions. */
  predicate InPlace(log: seq<LogEntry>, from: nat, end: nat) {
    end <= |log| && forall k | from < k <= end :: FindEntry(log, k) == Some(log[k - 1])
  }

  lemma {:induction false} DueAtMost(log: seq<LogEntry>, from: nat, end: nat)
    ensures |Due(log, from, end)| <= if from <= end then end - from else 0
    decreases end
  {
    if from < end {
      DueAtMost(log, from, end - 1);
    }
  }

  lemma SameEnds<T>(before: seq<T>, last: seq<T>, a: seq<T>, x: T)
    requires |before| <= |a| && |last| <= 1
    ensures before + last == a + [x] <==> before == a && last == [x]
  {
    if before + last == a + [x] {
      assert |before| == |a| && |last| == 1;
      assert before == (before + last)[..|a|] == (a + [x])[..|a|] == a;
      assert last[0] == (before + last)[|a|] == (a + [x])[|a|] == x;
    }
  }

  /** The entries that come due are a stretch of the log if and only if they are in place. */
  lemma {:induction false} DueIsSliceIff(log: seq<LogEntry>, from: nat, end: nat)
    requires from <= end <= |log|
    ensures Due(log, from, end) == log[from..end] <==> InPlace(log, from, end)
    decreases end
  {
    if from < end {
      var rest, last := log[from..end - 1], log[end - 1];
      DueIsSliceIff(log, from, end - 1);
      DueAtMost(log, from, end - 1);
      SameEnds(Due(log, from, end - 1), EntryAt(log, end), rest, last);
      InPlaceNext(log, from, end);
      assert log[from..end] == rest + [last];
    }
  }

  lemma InPlaceNext(log: seq<LogEntry>, from: nat, end: nat)
    requires from < end <= |log|
    ensures InPlace(log, from, end) <==>
            InPlace(log, from, end - 1) && FindEntry(log, end) == Some(log[end - 1])
  {
  }

  /** Applying a log that starts with the applied entries keeps the history exactly when what comes
      due is in place. */
  lemma ApplyHistoryIff(s: NodeState)
    requires s.lastApplied <= |s.log| && s.applied == s.log[..s.lastApplied]
    ensures History(Apply(s)) <==> InPlace(s.log, s.lastApplied, Max(s.lastApplied, s.commitIndex))
  {
    var from, end := s.lastApplied, s.commitIndex;
    if from < end {
      if end <= |s.log| {
        DueIsSliceIff(s.log, from, end);
        Joined(s.log, from, end, Due(s.log, from, end));
      }
    } else {
      assert s.applied + [] == s.applied;
    }
  }

  lemma Joined(log: seq<LogEntry>, from: nat, end: nat, due: seq<LogEntry>)
    requires from <= end <= |log|
    ensures log[..from] + due == log[..end] <==> due == log[from..end]
  {
    assert log[..end] == log[..from] + log[from..end];
    if log[..from] + due == log[..end] {
      assert due == (log[..from] + due)[from..] == log[..end][from..] == log[from..end];
    }
  }

  // ------------------------------------------------------------ append requests

  /** The entries replace one of the first `k` entries of the log. */
  predicate Replaces(log: seq<LogEntry>, prev: nat, es: seq<LogEntry>, k: nat) {
    exists i | prev <= i < prev + |es| && i < k && i < |log| :: log[i].term != es[i - prev].term
  }

  /** The request asks to replace an entry at or below the applied mark. */
  predicate Overwrites(s: NodeState, req: AppendRequest) {
    Replaces(s.log, req.prevLogIndex, req.entries, s.lastApplied)
  }

  /** The request is refused, or it replaces nothing applied and what it makes due is in place. */
  predicate GentleAppend(s: NodeState, req: AppendRequest) {
    Accepts(s, req) ==>
      && !Overwrites(s, req)
      && InPlace(Merge(s.log, req.prevLogIndex, req.entries), s.lastApplied,
                 Max(s.lastApplied, NewCommit(s.commitIndex, req)))
  }

  lemma KeptPrefix(log: seq<LogEntry>, prev: nat, es: seq<LogEntry>, k: nat)
    requires prev <= |log| && k <= |log| && !Replaces(log, prev, es, k)
    ensures k <= |Merge(log, prev, es)| && Merge(log, prev, es)[..k] == log[..k]
  {
  }

  lemma LostPrefix(log: seq<LogEntry>, prev: nat, es: seq<LogEntry>, k: nat)
    requires prev <= |log| && k <= |log| && Replaces(log, prev, es, k)
    ensures k <= |Merge(log, prev, es)| ==> Merge(log, prev, es)[..k] != log[..k]
  {
    var a := AgreeLen(log, prev, es);
    var i :| prev <= i < prev + |es| && i < k && log[i].term != es[i - prev].term;
    assert prev + a <= i;
    var merged := Merge(log, prev, es);
    assert merged[prev + a] == es[a];
    if k <= |merged| {
      assert merged[..k][prev + a] != log[..k][prev + a];
    }
  }

  /** An append request keeps the history exactly when it is gentle. */
  lemma HistoryKeptIff(s: NodeState, req: AppendRequest)
    requires History(s)
    ensures History(OnAppendEntries(s, req).0) <==> GentleAppend(s, req)
  {
    if Accepts(s, req) {
      var merged := Merge(s.log, req.prevLogIndex, req.entries);
      var s1 := s.(log := merged, commitIndex := NewCommit(s.commitIndex, req));
      AcceptedState(s, req);
      if Overwrites(s, req) {
        LostPrefix(s.log, req.prevLogIndex, req.entries, s.lastApplied);
        OverwriteShows(s, s1);
      } else {
        KeptPrefix(s.log, req.prevLogIndex, req.entries, s.lastApplied);
        ApplyHistoryIff(s1);
      }
    }
  }

  predicate SameHistory(s: NodeState, t: NodeState) {
    s.log == t.log && s.commitIndex == t.commitIndex && s.lastApplied == t.lastApplied &&
    s.applied == t.applied
  }

  lemma AcceptedState(s: NodeState, req: AppendRequest)
    requires Accepts(s, req)
    ensures req.prevLogIndex <= |s.log|
    ensures SameHistory(OnAppendEntries(s, req).0,
                        Apply(s.(log := Merge(s.log, req.prevLogIndex, req.entries),
                                 commitIndex := NewCommit(s.commitIndex, req))))
  {
  }

  /** An overwritten entry stays in the applied history while the log holds another one. */
  lemma OverwriteShows(s: NodeState, s1: NodeState)
    requires History(s) && s1.applied == s.applied && s1.lastApplied == s.lastApplied
    requires s.lastApplied <= |s1.log| ==> s1.log[..s.lastApplied] != s.log[..s.lastApplied]
    ensures !History(Apply(s1))
  {
    var s2, k := Apply(s1), s.lastApplied;
    assert s2.applied[..k] == s.log[..k];
    assert s2.lastApplied <= |s2.log| ==> s2.log[..s2.lastApplied][..k] == s2.log[..k];
  }

  // ------------------------------------------------------------- proposals and snapshots

  lemma {:induction false} FindAppended(log: seq<LogEntry>, e: LogEntry, index: nat)
    ensures FindEntry(log + [e], index) ==
            if FindEntry(log, index).Some? then FindEntry(log, index)
            else if e.index == index then Some(e) else None
  {
    if log == [] {
      assert log + [e] == [e];
    } else if log[0].index != index {
      assert (log + [e])[1..] == log[1..] + [e];
      FindAppended(log[1..], e, index);
    }
  }

  lemma AppendedInPlaceIff(log: seq<LogEntry>, from: nat, e: LogEntry)
    requires from <= |log| && e.index == |log| + 1
    ensures InPlace(log + [e], from, |log| + 1) <==>
            InPlace(log, from, |log|) && FindEntry(log + [e], |log| + 1) == Some(e)
  {
    forall k | from < k <= |log|
      ensures FindEntry(log + [e], k) == Some((log + [e])[k - 1]) <==>
              FindEntry(log, k) == Some(log[k - 1])
    {
      FindAppended(log, e, k);
    }
  }

  function Proposal(s: NodeState, cmd: Command, now: int): LogEntry {
    LogEntry(s.currentTerm, |s.log| + 1, cmd, now, "cluster-internal")
  }

  /** All entries that are not applied yet are in place, and no other entry has the next index. */
  predicate GentlePropose(s: NodeState, e: LogEntry) {
    && InPlace(s.log, s.lastApplied, |s.log|)
    && (FindEntry(s.log, |s.log| + 1) == None || FindEntry(s.log, |s.log| + 1) == Some(e))
  }

  lemma ProposeKeepsIff(s: NodeState, cmd: Command, now: int)
    requires History(s)
    ensures History(OnPropose(s, cmd, now)) <==> GentlePropose(s, Proposal(s, cmd, now))
  {
    var e := Proposal(s, cmd, now);
    assert (s.log + [e])[..s.lastApplied] == s.log[..s.lastApplied];
    ApplyHistoryIff(s.(log := s.log + [e], commitIndex := |s.log| + 1));
    AppendedInPlaceIff(s.log, s.lastApplied, e);
    FindAppended(s.log, e, |s.log| + 1);
  }

  lemma {:induction false} KeptAreLater(log: seq<LogEntry>, index: nat)
    ensures forall e | e in KeepAfter(log, index) :: e.index > index
    ensures |KeepAfter(log, index)| <= |log|
  {
    if log != [] {
      KeptAreLater(log[..|log| - 1], index);
    }
  }

  /** The entries at the given positions, which are those of all entries above the index. */
  ghost predicate KeptAt(log: seq<LogEntry>, index: nat, kept: seq<LogEntry>, at: seq<nat>) {
    && Positions(at, |log|) && |at| == |kept|
    && (forall i | 0 <= i < |at| :: kept[i] == log[at[i]])
    && (forall j | 0 <= j < |log| :: j in at <==> log[j].index > index)
  }

  lemma KeptAtNext(log: seq<LogEntry>, index: nat, kept: seq<LogEntry>, at: seq<nat>, e: LogEntry)
    requires KeptAt(log, index, kept, at)
    ensures if e.index > index then KeptAt(log + [e], index, kept + [e], at + [|log|])
            else KeptAt(log + [e], index, kept, at)
  {
    if e.index > index {
      assert forall j | 0 <= j < |log| :: j in at + [|log|] <==> j in at;
    }
  }

  /** Of the old log exactly the entries numbered above the index are kept, in their order. */
  lemma {:induction false} KeptInOrder(log: seq<LogEntry>, index: nat) returns (at: seq<nat>)
    ensures KeptAt(log, index, KeepAfter(log, index), at)
  {
    if log == [] {
      at := [];
    } else {
      var init, e := log[..|log| - 1], log[|log| - 1];
      at := KeptInOrder(init, index);
      KeptAtNext(init, index, KeepAfter(init, index), at, e);
      assert log == init + [e];
      if e.index > index {
        at := at + [|init|];
      }
    }
  }

  predicate AllLater(log: seq<LogEntry>, k: nat, index: nat)
    requires k <= |log|
  {
    forall i | 0 <= i < k :: log[i].index > index
  }

  lemma {:induction false} LaterAreKept(log: seq<LogEntry>, k: nat, index: nat)
    requires k <= |log| && AllLater(log, k, index)
    ensures k <= |KeepAfter(log, index)| && KeepAfter(log, index)[..k] == log[..k]
  {
    var n := |log| - 1;
    if k == |log| {
      if k > 0 {
        LaterAreKept(log[..n], n, index);
        KeptAreLater(log[..n], index);
        assert log == log[..n] + [log[n]];
      }
    } else {
      LaterAreKept(log[..n], k, index);
      assert log[..n][..k] == log[..k];
    }
  }

  /** The message is stale or not the last chunk, or its index is the applied mark and everything
      applied is numbered above it. */
  predicate GentleSnapshot(s: NodeState, req: SnapshotRequest) {
    req.term >= s.currentTerm && req.done ==>
      && req.lastIncludedIndex == s.lastApplied <= |s.log|
      && AllLater(s.log, s.lastApplied, s.lastApplied)
  }

  /** A snapshot message keeps the history exactly when it is gentle. */
  lemma SnapshotKeepsIff(s: NodeState, req: SnapshotRequest)
    requires History(s)
    ensures History(OnSnapshot(s, req).0) <==> GentleSnapshot(s, req)
  {
    var s', k := OnSnapshot(s, req).0, s.lastApplied;
    assert |s.applied| == k;
    if req.term >= s.currentTerm && req.done && req.lastIncludedIndex == k {
      KeptAreLater(s.log, k);
      if AllLater(s.log, k, k) {
        LaterAreKept(s.log, k, k);
      } else if History(s') {
        forall i | 0 <= i < k ensures s.log[i].index > k {
          assert s.log[i] == s.applied[i] == s'.log[..k][i] == s'.log[i];
          assert s'.log[i] in s'.log;
        }
      }
    }
  }

  // ---------------------------------------------------------------- whole runs

  /** The event does not disturb the history of the replica it happens to. */
  predicate GentleTo(s: NodeState, e: Event) {
    match e
    case DeliverAppend(_, req) => GentleAppend(s, req)
    case DeliverSnapshot(_, req) => GentleSnapshot(s, req)
    case Propose(_, cmd, now) => GentlePropose(s, Proposal(s, cmd, now))
    case _ => true
  }

  /** Whatever happens to other replicas, what happens to `n` is gentle. */
  function GentleFor(n: NodeId): (Cluster, Event) -> bool {
    (c: Cluster, e: Event) => e.n == n && n in c.nodes ==> GentleTo(c.nodes[n], e)
  }

  lemma HistoryStepIff(c: Cluster, e: Event, n: NodeId)
    requires n in c.nodes && History(c.nodes[n])
    ensures n in Step(c, e).nodes
    ensures History(Step(c, e).nodes[n]) <==> GentleFor(n)(c, e)
  {
    if e.n == n {
      var s := c.nodes[n];
      match e
      case DeliverAppend(_, req) => HistoryKeptIff(s, req);
      case DeliverSnapshot(_, req) => SnapshotKeepsIff(s, req);
      case Propose(_, cmd, now) => ProposeKeepsIff(s, cmd, now);
      case _ =>
    }
  }

  /** The history of `n` is intact after every event of the run. */
  ghost predicate AlwaysHistory(ids: set<NodeId>, es: seq<Event>, n: NodeId) {
    var c := Run(Init(ids), es);
    && n in c.nodes && History(c.nodes[n])
    && (es == [] || AlwaysHistory(ids, es[..|es| - 1], n))
  }

  /** In every run whatsoever, at every replica: at every moment the commands applied so far are
      the first `lastApplied` entries of the log, in order and each once, if and only if every
      event at that replica is gentle. */
  lemma {:induction false} AppliedHistoryIff(ids: set<NodeId>, es: seq<Event>, n: NodeId)
    requires n in ids
    ensures AlwaysHistory(ids, es, n) <==> Keeps(Init(ids), es, GentleFor(n))
  {
    if es != [] {
      var before := es[..|es| - 1];
      AppliedHistoryIff(ids, before, n);
      if AlwaysHistory(ids, before, n) {
        HistoryStepIff(Run(Init(ids), before), es[|es| - 1], n);
      }
    }
  }

  // -------------------------------------------------------------- events that are not gentle

  /** An entry with another index than its position, committed at once: nothing is applied although
      the mark moves. */
  lemma MisnumberedEntryIsSkipped(id: NodeId, e: LogEntry)
    requires e.index != 1
    ensures var s := OnAppendEntries(Fresh(id), AppendRequest(0, "leader", 0, 0, [e], 1)).0;
            s.log == [e] && s.lastApplied == 1 && s.applied == [] && !History(s)
  {
    var s := Fresh(id);
    assert AgreeLen(s.log, 0, [e]) == 0;
    assert s.log[..0] + [e][0..] == [e];
    assert FindEntry([e], 1) == None;
    assert Due([e], 0, 0) == [] && Due([e], 0, 1) == [] + EntryAt([e], 1);
  }

  /** As long as it is not committed, it does no harm. */
  lemma MisnumberedEntryWaits(id: NodeId, e: LogEntry)
    ensures History(OnAppendEntries(Fresh(id), AppendRequest(0, "leader", 0, 0, [e], 0)).0)
  {
    HistoryKeptIff(Fresh(id), AppendRequest(0, "leader", 0, 0, [e], 0));
  }

  /** A snapshot puts the mark where the log does not reach. */
  lemma SnapshotBreaksHistory(id: NodeId, index: nat)
    requires index > 0
    ensures !History(OnSnapshot(Fresh(id), SnapshotRequest(0, "leader", index, true)).0)
  {
    SnapshotKeepsIff(Fresh(id), SnapshotRequest(0, "leader", index, true));
  }

  /** The applied counter and the applied sequence only grow, whatever is delivered, unless a
      snapshot is installed. */
  lemma AppliedOnlyGrows(c: Cluster, e: Event, n: NodeId)
    requires n in c.nodes && (e.DeliverSnapshot? ==> !e.snapshot.done)
    ensures n in Step(c, e).nodes
    ensures c.nodes[n].lastApplied <= Step(c, e).nodes[n].lastApplied
    ensures c.nodes[n].applied <= Step(c, e).nodes[n].applied
  {
    if e.n == n {
      var s := c.nodes[n];
      match e
      case DeliverAppend(_, req) => if Accepts(s, req) { AcceptedState(s, req); }
      case _ =>
    }
  }

  /** The commit index steps back exactly on an accepted request that ends below it and
      announces a commit above it. */
  lemma CommitStepsBackIff(s: NodeState, req: AppendRequest)
    ensures OnAppendEntries(s, req).0.commitIndex < s.commitIndex <==>
            Accepts(s, req)
            && req.prevLogIndex + |req.entries| < s.commitIndex < req.leaderCommit
  {
  }

  // --------------------------------------------------------------- disciplined runs

  predicate Indexed(log: seq<LogEntry>, base: nat) {
    forall i | 0 <= i < |log| :: log[i].index == base + i + 1
  }

  lemma {:induction false} FindByPosition(log: seq<LogEntry>, base: nat, index: nat)
    requires Indexed(log, base)
    ensures FindEntry(log, index) ==
            if base < index <= base + |log| then Some(log[index - base - 1]) else None
  {
    if log != [] && log[0].index != index {
      FindByPosition(log[1..], base + 1, index);
    }
  }

  lemma IndexedInPlace(log: seq<LogEntry>, from: nat, end: nat)
    requires Indexed(log, 0) && end <= |log|
    ensures InPlace(log, from, end) && FindEntry(log, |log| + 1) == None
  {
    forall k: nat | from < k <= end || k == |log| + 1
      ensures FindEntry(log, k) == if k <= |log| then Some(log[k - 1]) else None
    {
      FindByPosition(log, 0, k);
    }
  }

  /** A proposal to a replica whose log is numbered by position is applied at once, after everything
      that was waiting. */
  lemma ProposalIsApplied(s: NodeState, cmd: Command, now: int)
    requires History(s) && Indexed(s.log, 0)
    ensures var s', e := OnPropose(s, cmd, now), Proposal(s, cmd, now);
            && s'.log == s'.applied == s.log + [e] && s'.commitIndex == s'.lastApplied == |s'.log|
            && e.command == cmd && e.timestamp == now && e.term == s.currentTerm
            && e.index == |s.log| + 1
  {
    IndexedInPlace(s.log, s.lastApplied, |s.log|);
    ProposeKeepsIff(s, cmd, now);
    var log := s.log + [Proposal(s, cmd, now)];
    assert log[..|log|] == log;
  }

  lemma MergeIndexed(log: seq<LogEntry>, prev: nat, es: seq<LogEntry>)
    requires prev <= |log| && Indexed(log, 0) && Indexed(es, prev)
    ensures Indexed(Merge(log, prev, es), 0)
  {
  }

  ghost predicate AllIndexed(c: Cluster) {
    && (forall n | n in c.nodes :: Indexed(c.nodes[n].log, 0))
    && (forall req | req in c.sent :: Indexed(req.entries, req.prevLogIndex))
  }

  lemma AllIndexedStep(c: Cluster, e: Event)
    requires AllIndexed(c) && Disciplined(c, e)
    ensures AllIndexed(Step(c, e))
  {
    if e.n in c.nodes && !e.Propose? {
      if e.DeliverAppend? && Accepts(c.nodes[e.n], e.append) {
        MergeIndexed(c.nodes[e.n].log, e.append.prevLogIndex, e.append.entries);
      } else {
        LogUntouched(c, e);
      }
    }
  }

  /** A disciplined run keeps all logs numbered by position, and puts on the wire only requests
      whose indices are those of a stretch of a log. */
  lemma {:induction false} SentIndexed(ids: set<NodeId>, es: seq<Event>)
    requires Keeps(Init(ids), es, Disciplined)
    ensures AllIndexed(Run(Init(ids), es))
  {
    if es != [] {
      SentIndexed(ids, es[..|es| - 1]);
      AllIndexedStep(Run(Init(ids), es[..|es| - 1]), es[|es| - 1]);
    }
  }

  /** No accepted request replaces an applied entry. */
  predicate Sparing(c: Cluster, e: Event) {
    e.DeliverAppend? && e.n in c.nodes && Accepts(c.nodes[e.n], e.append) ==>
      !Overwrites(c.nodes[e.n], e.append)
  }

  lemma SparingEvent(s: NodeState, e: Event)
    requires History(s) && Indexed(s.log, 0) && (e.DeliverSnapshot? ==> !e.snapshot.done)
    requires e.DeliverAppend? ==> Indexed(e.append.entries, e.append.prevLogIndex)
    requires e.DeliverAppend? && Accepts(s, e.append) ==> !Overwrites(s, e.append)
    ensures GentleTo(s, e)
  {
    match e
    case Propose(_, cmd, now) => IndexedInPlace(s.log, s.lastApplied, |s.log|);
    case DeliverAppend(_, req) =>
      if Accepts(s, req) {
        var merged := Merge(s.log, req.prevLogIndex, req.entries);
        MergeIndexed(s.log, req.prevLogIndex, req.entries);
        KeptPrefix(s.log, req.prevLogIndex, req.entries, s.lastApplied);
        MergeReaches(s.log, req.prevLogIndex, req.entries);
        IndexedInPlace(merged, s.lastApplied, Max(s.lastApplied, NewCommit(s.commitIndex, req)));
      }
    case _ =>
  }

  lemma MergeReaches(log: seq<LogEntry>, prev: nat, es: seq<LogEntry>)
    requires prev <= |log|
    ensures prev + |es| <= |Merge(log, prev, es)|
  {
  }

  /** Under the discipline, overwriting is the only way to disturb a history. */
  lemma {:induction false} SparingIsGentle(ids: set<NodeId>, es: seq<Event>, n: NodeId)
    requires Keeps(Init(ids), es, Disciplined) && Keeps(Init(ids), es, Sparing) && n in ids
    ensures Keeps(Init(ids), es, GentleFor(n)) && AlwaysHistory(ids, es, n)
  {
    if es != [] {
      var before, e := es[..|es| - 1], es[|es| - 1];
      var c := Run(Init(ids), before);
      SparingIsGentle(ids, before, n);
      SentIndexed(ids, before);
      if e.n == n {
        SparingEvent(c.nodes[n], e);
      }
      AppliedHistoryIff(ids, es, n);
    }
  }

  /** In every disciplined run that overwrites nothing applied, every replica has applied exactly
      the first `lastApplied` entries of its log. */
  lemma AppliedHistory(ids: set<NodeId>, es: seq<Event>, n: NodeId)
    requires Keeps(Init(ids), es, Disciplined) && Keeps(Init(ids), es, Sparing) && n in ids
    ensures n in Run(Init(ids), es).nodes
    ensures var s := Run(Init(ids), es).nodes[n];
            s.lastApplied <= |s.log| && s.applied == s.log[..s.lastApplied]
  {
    SparingIsGentle(ids, es, n);
  }

  /** In such a run, two state machines have applied the same commands up to a position if and only
      if the entries they applied there are of the same term. */
  lemma AppliedMatchingIff(ids: set<NodeId>, es: seq<Event>, m: NodeId, n: NodeId, i: nat)
    requires Keeps(Init(ids), es, Disciplined) && Keeps(Init(ids), es, Sparing)
    requires m in ids && n in ids && m in Run(Init(ids), es).nodes && n in Run(Init(ids), es).nodes
    requires i < |Run(Init(ids), es).nodes[m].applied| && i < |Run(Init(ids), es).nodes[n].applied|
    ensures var a, b := Run(Init(ids), es).nodes[m].applied, Run(Init(ids), es).nodes[n].applied;
            a[..i + 1] == b[..i + 1] <==> a[i].term == b[i].term
  {
    AppliedHistory(ids, es, m);
    AppliedHistory(ids, es, n);
    var s, t := Run(Init(ids), es).nodes[m], Run(Init(ids), es).nodes[n];
    assert s.applied[..i + 1] == s.log[..i + 1] && t.applied[..i + 1] == t.log[..i + 1];
    if s.applied[i].term == t.applied[i].term {
      LogMatching(ids, es, m, n, i);
    } else {
      assert s.applied[..i + 1][i] != t.applied[..i + 1][i];
    }
  }
}
