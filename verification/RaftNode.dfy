/** One Raft replica.

    The pure functions `On...` say what each handler does to the state of a replica; the class
    `Node` updates its fields step by step, as the handlers do while they hold the replica's
    lock, and is proved to compute exactly those functions. */
module RaftNode {
  import opened Basics

  const TERM_MODULUS: int := 0x1_0000_0000_0000_0000

  /** Terms are unsigned 64-bit numbers. Positions in the log stay below the length of a slice
      and never wrap, so they are plain naturals. */
  type uint64 = x: int | 0 <= x < TERM_MODULUS

  const LAST_TERM: uint64 := TERM_MODULUS - 1

  type NodeId = string

  datatype Command = Command(kind: string, repository: string, data: map<string, string>)

  datatype LogEntry =
    LogEntry(term: uint64, index: nat, command: Command, timestamp: int, clientId: string)

  datatype Role = Follower | Candidate | Leader | Offline | Joining | Leaving

  /** `applied` is the sequence of entries handed to the state machine so far. */
  datatype NodeState = NodeState(
    id: NodeId,
    role: Role,
    isLeader: bool,
    leaderId: NodeId,
    currentTerm: uint64,
    votedFor: NodeId,
    log: seq<LogEntry>,
    commitIndex: nat,
    lastApplied: nat,
    applied: seq<LogEntry>)

  datatype VoteRequest =
    VoteRequest(term: uint64, candidateId: NodeId, lastLogIndex: nat, lastLogTerm: uint64)

  datatype VoteResponse = VoteResponse(term: uint64, voteGranted: bool)

  datatype AppendRequest = AppendRequest(
    term: uint64,
    leaderId: NodeId,
    prevLogIndex: nat,
    prevLogTerm: uint64,
    entries: seq<LogEntry>,
    leaderCommit: nat)

  datatype AppendResponse = AppendResponse(term: uint64, success: bool)

  datatype SnapshotRequest =
    SnapshotRequest(term: uint64, leaderId: NodeId, lastIncludedIndex: nat, done: bool)

  function Max(a: int, b: int): int {
    if a < b then b else a
  }

  function Min(a: int, b: int): int {
    if a < b then a else b
  }

  /** A replica that has just been created and found no state on disk. */
  function Fresh(id: NodeId): NodeState {
    NodeState(id, Follower, false, "", 0, "", [], 0, 0, [])
  }

  // ------------------------------------------------------------------ the log

  /** How many of the incoming entries, counted from the first, are already in the log after
      position `prev` with the same term. */
  function AgreeLen(log: seq<LogEntry>, prev: nat, es: seq<LogEntry>): (a: nat)
    requires prev <= |log|
    ensures a <= |es| && prev + a <= |log|
    ensures forall k | prev <= k < prev + a :: log[k].term == es[k - prev].term
    ensures a < |es| && prev + a < |log| ==> log[prev + a].term != es[a].term
    decreases |es|
  {
    if es == [] || prev == |log| || log[prev].term != es[0].term then 0
    else 1 + AgreeLen(log, prev + 1, es[1..])
  }

  /** The log after an accepted request: whatever already agrees is kept, the rest of the request
      replaces everything from the first disagreement on. */
  function Merge(log: seq<LogEntry>, prev: nat, es: seq<LogEntry>): seq<LogEntry>
    requires prev <= |log|
  {
    var a := AgreeLen(log, prev, es);
    if a == |es| then log else log[..prev + a] + es[a..]
  }

  predicate PrevMatches(log: seq<LogEntry>, req: AppendRequest) {
    req.prevLogIndex == 0 ||
    (req.prevLogIndex <= |log| && log[req.prevLogIndex - 1].term == req.prevLogTerm)
  }

  function NewCommit(commitIndex: nat, req: AppendRequest): nat {
    if req.leaderCommit > commitIndex
    then Min(req.leaderCommit, req.prevLogIndex + |req.entries|)
    else commitIndex
  }

  // ---------------------------------------------------------------- applying

  /** The first entry that carries the given index. */
  function FindEntry(log: seq<LogEntry>, index: nat): Option<LogEntry> {
    if log == [] then None
    else if log[0].index == index then Some(log[0])
    else FindEntry(log[1..], index)
  }

  function EntryAt(log: seq<LogEntry>, index: nat): seq<LogEntry> {
    match FindEntry(log, index)
    case Some(e) => [e]
    case None => []
  }

  /** The entries handed to the state machine when the counter moves from `from` to `to`. */
  function Due(log: seq<LogEntry>, from: nat, to: nat): seq<LogEntry>
    decreases to
  {
    if to <= from then [] else Due(log, from, to - 1) + EntryAt(log, to)
  }

  function Apply(s: NodeState): NodeState {
    s.(lastApplied := Max(s.lastApplied, s.commitIndex),
       applied := s.applied + Due(s.log, s.lastApplied, s.commitIndex))
  }

  // ---------------------------------------------------------------- handlers

  function LastLogIndex(log: seq<LogEntry>): nat {
    if log == [] then 0 else log[|log| - 1].index
  }

  function LastLogTerm(log: seq<LogEntry>): uint64 {
    if log == [] then 0 else log[|log| - 1].term
  }

  predicate UpToDate(log: seq<LogEntry>, req: VoteRequest) {
    req.lastLogTerm > LastLogTerm(log) ||
    (req.lastLogTerm == LastLogTerm(log) && req.lastLogIndex >= LastLogIndex(log))
  }

  /** Adopts a higher term and forgets the vote of the old one. */
  function Adopt(s: NodeState, term: uint64): NodeState {
    if term > s.currentTerm
    then s.(currentTerm := term, votedFor := "", role := Follower, isLeader := false)
    else s
  }

  function OnRequestVote(s: NodeState, req: VoteRequest): (NodeState, VoteResponse) {
    if req.term < s.currentTerm then (s, VoteResponse(s.currentTerm, false))
    else
      var s1 := Adopt(s, req.term);
      if (s1.votedFor == "" || s1.votedFor == req.candidateId) && UpToDate(s1.log, req)
      then (s1.(votedFor := req.candidateId), VoteResponse(req.term, true))
      else (s1, VoteResponse(req.term, false))
  }

  predicate Accepts(s: NodeState, req: AppendRequest) {
    req.term >= s.currentTerm && PrevMatches(s.log, req)
  }

  function OnAppendEntries(s: NodeState, req: AppendRequest): (NodeState, AppendResponse) {
    if req.term < s.currentTerm then (s, AppendResponse(s.currentTerm, false))
    else
      var s1 := Adopt(s, req.term).(role := Follower, isLeader := false, leaderId := req.leaderId);
      if !PrevMatches(s.log, req) then (s1, AppendResponse(req.term, false))
      else
        var s2 := s1.(log := Merge(s.log, req.prevLogIndex, req.entries),
                      commitIndex := NewCommit(s.commitIndex, req));
        (Apply(s2), AppendResponse(req.term, true))
  }

  function KeepAfter(log: seq<LogEntry>, index: nat): seq<LogEntry> {
    if log == [] then []
    else
      var init := KeepAfter(log[..|log| - 1], index);
      if log[|log| - 1].index > index then init + [log[|log| - 1]] else init
  }

  function OnSnapshot(s: NodeState, req: SnapshotRequest): (NodeState, uint64) {
    if req.term < s.currentTerm then (s, s.currentTerm)
    else
      var s1 := Adopt(s, req.term).(leaderId := req.leaderId);
      var s2 := if req.done
                then s1.(log := KeepAfter(s1.log, req.lastIncludedIndex),
                         lastApplied := req.lastIncludedIndex,
                         commitIndex := req.lastIncludedIndex)
                else s1;
      (s2, req.term)
  }

  function Lead(s: NodeState): NodeState {
    s.(role := Leader, isLeader := true, leaderId := s.id)
  }

  function NextTerm(term: uint64): uint64 {
    (term + 1) % TERM_MODULUS
  }

  /** `peers` are the members of the cluster the replica belongs to, if it belongs to one. */
  function OnElectionTimeout(s: NodeState, peers: Option<set<NodeId>>): NodeState {
    var s1 := s.(role := Candidate, currentTerm := NextTerm(s.currentTerm), votedFor := s.id);
    if peers.Some? && 1 >= |peers.value| / 2 + 1 then Lead(s1) else s1
  }

  function OnPropose(s: NodeState, cmd: Command, now: int): NodeState {
    var e := LogEntry(s.currentTerm, |s.log| + 1, cmd, now, "cluster-internal");
    Apply(s.(log := s.log + [e], commitIndex := |s.log| + 1))
  }

  // ---------------------------------------------------- what the answers mean

  /** Every answer carries the term of the replica after the request: the greater of the two. */
  lemma AnswersCarryTerm(s: NodeState, vote: VoteRequest, append: AppendRequest,
                         snapshot: SnapshotRequest)
    ensures var (s', resp) := OnRequestVote(s, vote);
            resp.term == s'.currentTerm == Max(s.currentTerm, vote.term)
    ensures var (s', resp) := OnAppendEntries(s, append);
            resp.term == s'.currentTerm == Max(s.currentTerm, append.term)
    ensures var (s', term) := OnSnapshot(s, snapshot);
            term == s'.currentTerm == Max(s.currentTerm, snapshot.term)
  {
  }

  /** A vote is granted if and only if the request is not stale, its log is up to date and the
      replica has not voted for another candidate in that term. It is remembered with the term, and
      nothing in the log changes. */
  lemma VoteGrantedIff(s: NodeState, req: VoteRequest)
    ensures var (s', resp) := OnRequestVote(s, req);
            && (resp.voteGranted <==>
                  && req.term >= s.currentTerm && UpToDate(s.log, req)
                  && (req.term > s.currentTerm || s.votedFor == "" || s.votedFor == req.candidateId))
            && s'.votedFor == (if resp.voteGranted then req.candidateId
                               else if req.term > s.currentTerm then "" else s.votedFor)
            && s'.log == s.log && s'.commitIndex == s.commitIndex
            && s'.lastApplied == s.lastApplied && s'.applied == s.applied
  {
  }

  /** An election moves the replica to the next term with a vote for itself. It leads at once if it is
      the only member, and otherwise stands as a candidate; nothing in the log changes. */
  lemma ElectionOutcome(s: NodeState, peers: Option<set<NodeId>>)
    ensures var s', wins := OnElectionTimeout(s, peers), peers.Some? && |peers.value| <= 1;
            && s'.currentTerm == NextTerm(s.currentTerm) && s'.votedFor == s'.id == s.id
            && s'.role == (if wins then Leader else Candidate)
            && s'.isLeader == (wins || s.isLeader)
            && s'.leaderId == (if wins then s.id else s.leaderId)
            && s'.log == s.log && s'.commitIndex == s.commitIndex
            && s'.lastApplied == s.lastApplied && s'.applied == s.applied
  {
  }

  /** Whoever sends a request of a current term is followed, whether or not the request fits the log;
      a stale one changes nothing. A new term is adopted without a vote. */
  lemma SenderIsFollowed(s: NodeState, req: AppendRequest)
    ensures var s' := OnAppendEntries(s, req).0;
            if req.term < s.currentTerm then s' == s
            else && s'.role == Follower && !s'.isLeader && s'.leaderId == req.leaderId
                 && s'.votedFor == (if req.term > s.currentTerm then "" else s.votedFor)
                 && (!Accepts(s, req) ==> s'.log == s.log && s'.lastApplied == s.lastApplied
                                          && s'.applied == s.applied)
  {
  }

  /** The last chunk of a snapshot puts both marks at its index and hands nothing to the state
      machine; other chunks leave log and marks alone, and a stale message everything. */
  lemma SnapshotInstalled(s: NodeState, req: SnapshotRequest)
    ensures var s' := OnSnapshot(s, req).0;
            && s'.applied == s.applied
            && if req.term < s.currentTerm then s' == s
               else && s'.leaderId == req.leaderId
                    && (if req.done
                        then s'.commitIndex == s'.lastApplied == req.lastIncludedIndex
                        else s'.commitIndex == s.commitIndex && s'.lastApplied == s.lastApplied
                             && s'.log == s.log)
                    && (req.term == s.currentTerm ==>
                          s'.role == s.role && s'.isLeader == s.isLeader
                          && s'.votedFor == s.votedFor)
                    && (req.term > s.currentTerm ==>
                          s'.role == Follower && !s'.isLeader && s'.votedFor == "")
  {
  }

  // ---------------------------------------------------- the replica as an object

  class Node {
    const id: NodeId
    var role: Role
    var isLeader: bool
    var leaderId: NodeId
    var currentTerm: uint64
    var votedFor: NodeId
    var log: seq<LogEntry>
    var commitIndex: nat
    var lastApplied: nat
    var applied: seq<LogEntry>

    ghost function View(): NodeState
      reads this
    {
      NodeState(id, role, isLeader, leaderId, currentTerm, votedFor, log, commitIndex, lastApplied, applied)
    }

    constructor (id: NodeId)
      ensures View() == Fresh(id)
    {
      this.id := id;
      role, isLeader, leaderId := Follower, false, "";
      currentTerm, votedFor, log := 0, "", [];
      commitIndex, lastApplied, applied := 0, 0, [];
    }

    method HandleRequestVote(req: VoteRequest) returns (resp: VoteResponse)
      modifies this
      ensures View() == OnRequestVote(old(View()), req).0
      ensures resp == OnRequestVote(old(View()), req).1
    {
      resp := VoteResponse(currentTerm, false);
      if req.term < currentTerm {
        return;
      }
      if req.term > currentTerm {
        currentTerm := req.term;
        votedFor := "";
        role := Follower;
        isLeader := false;
      }
      var lastLogIndex: nat, lastLogTerm: uint64 := 0, 0;
      if |log| > 0 {
        var lastEntry := log[|log| - 1];
        lastLogIndex := lastEntry.index;
        lastLogTerm := lastEntry.term;
      }
      var logUpToDate := req.lastLogTerm > lastLogTerm ||
                         (req.lastLogTerm == lastLogTerm && req.lastLogIndex >= lastLogIndex);
      if (votedFor == "" || votedFor == req.candidateId) && logUpToDate {
        votedFor := req.candidateId;
        resp := resp.(voteGranted := true);
      }
      resp := resp.(term := currentTerm);
    }

    method HandleAppendEntries(req: AppendRequest) returns (resp: AppendResponse)
      modifies this
      ensures View() == OnAppendEntries(old(View()), req).0
      ensures resp == OnAppendEntries(old(View()), req).1
    {
      resp := AppendResponse(currentTerm, false);
      if req.term < currentTerm {
        return;
      }
      if req.term > currentTerm {
        currentTerm := req.term;
        votedFor := "";
      }
      role := Follower;
      isLeader := false;
      leaderId := req.leaderId;
      if req.prevLogIndex > 0 {
        if req.prevLogIndex > |log| {
          resp := resp.(term := currentTerm);
          return;
        }
        if |log| > 0 && req.prevLogIndex <= |log| {
          var prevEntry := log[req.prevLogIndex - 1];
          if prevEntry.term != req.prevLogTerm {
            resp := resp.(term := currentTerm);
            return;
          }
        }
      }
      Accept(req);
      resp := AppendResponse(currentTerm, true);
    }

    /** The part of the append handler after its checks. */
    method Accept(req: AppendRequest)
      requires req.prevLogIndex <= |log|
      modifies this`log, this`commitIndex, this`lastApplied, this`applied
      ensures log == Merge(old(log), req.prevLogIndex, req.entries)
      ensures commitIndex == NewCommit(old(commitIndex), req)
      ensures commitIndex == old(commitIndex)
              || (commitIndex <= req.leaderCommit
                  && commitIndex <= req.prevLogIndex + |req.entries|)
      ensures lastApplied == Max(old(lastApplied), commitIndex)
      ensures applied == old(applied) + Due(log, old(lastApplied), commitIndex)
    {
      StoreEntries(req.prevLogIndex, req.entries);
      if req.leaderCommit > commitIndex {
        var lastNewIndex := req.prevLogIndex + |req.entries|;
        if req.leaderCommit < lastNewIndex {
          commitIndex := req.leaderCommit;
        } else {
          commitIndex := lastNewIndex;
        }
      }
      ApplyCommittedEntries();
    }

    method StoreEntries(prev: nat, es: seq<LogEntry>)
      requires prev <= |log|
      modifies this`log
      ensures log == Merge(old(log), prev, es)
    {
      CutConflict(prev, es);
      AppendMissing(prev, es);
    }

    /** Cuts the log at the first entry that conflicts with the request. */
    method CutConflict(prev: nat, es: seq<LogEntry>)
      requires prev <= |log|
      modifies this`log
      ensures var a := AgreeLen(old(log), prev, es);
              log == if a == |es| then old(log) else old(log)[..prev + a]
    {
      ghost var before := log;
      ghost var a := AgreeLen(before, prev, es);
      var i := 0;
      while i < |es|
        invariant 0 <= i <= |es|
        invariant log == before
        invariant i <= a || prev + a == |before|
      {
        var logIndex := prev + i + 1;
        if logIndex <= |log| {
          var existing := log[logIndex - 1];
          if existing.term != es[i].term {
            log := log[..logIndex - 1];
            return;
          }
        }
        i := i + 1;
      }
    }

    /** Appends the entries of the request that lie beyond the end of the log. */
    method AppendMissing(prev: nat, es: seq<LogEntry>)
      requires prev <= |log|
      modifies this`log
      ensures log == if prev + |es| <= old(|log|) then old(log)
                     else old(log) + es[old(|log|) - prev..]
    {
      ghost var len := |log|;
      for i := 0 to |es|
        invariant log == if prev + i <= len then old(log) else old(log) + es[len - prev..i]
      {
        var logIndex := prev + i + 1;
        if logIndex > |log| {
          log := log + [es[i]];
        }
      }
    }

    method ApplyCommittedEntries()
      modifies this`lastApplied, this`applied
      ensures lastApplied == Max(old(lastApplied), commitIndex)
      ensures applied == old(applied) + Due(log, old(lastApplied), commitIndex)
    {
      ghost var from := lastApplied;
      while lastApplied < commitIndex
        invariant from <= lastApplied <= Max(from, commitIndex)
        invariant applied == old(applied) + Due(log, from, lastApplied)
      {
        lastApplied := lastApplied + 1;
        var found := None;
        var i := 0;
        while i < |log|
          invariant 0 <= i <= |log|
          invariant found == None
          invariant FindEntry(log, lastApplied) == FindEntry(log[i..], lastApplied)
        {
          if log[i].index == lastApplied {
            found := Some(log[i]);
            break;
          }
          assert log[i..][1..] == log[i + 1..];
          i := i + 1;
        }
        if found.Some? {
          applied := applied + [found.value];
        }
      }
    }

    method HandleSnapshot(req: SnapshotRequest) returns (term: uint64)
      modifies this
      ensures View() == OnSnapshot(old(View()), req).0
      ensures term == OnSnapshot(old(View()), req).1
    {
      term := currentTerm;
      if req.term < currentTerm {
        return;
      }
      if req.term > currentTerm {
        currentTerm := req.term;
        votedFor := "";
        role := Follower;
        isLeader := false;
      }
      leaderId := req.leaderId;
      if req.done {
        var newLog := [];
        for i := 0 to |log|
          invariant newLog == KeepAfter(log[..i], req.lastIncludedIndex)
        {
          assert log[..i + 1][..i] == log[..i];
          if log[i].index > req.lastIncludedIndex {
            newLog := newLog + [log[i]];
          }
        }
        assert log[..|log|] == log;
        log := newLog;
        lastApplied := req.lastIncludedIndex;
        commitIndex := req.lastIncludedIndex;
      }
      term := currentTerm;
    }

    method StartElection(peers: Option<set<NodeId>>)
      modifies this
      ensures View() == OnElectionTimeout(old(View()), peers)
    {
      role := Candidate;
      currentTerm := (currentTerm + 1) % TERM_MODULUS;
      votedFor := id;
      var votes := 1;
      if peers.Some? {
        var majority := |peers.value| / 2 + 1;
        if votes >= majority {
          BecomeLeader();
        }
      }
    }

    method BecomeLeader()
      modifies this`role, this`isLeader, this`leaderId
      ensures View() == Lead(old(View()))
    {
      role := Leader;
      isLeader := true;
      leaderId := id;
    }

    method AppendAndReplicate(cmd: Command, now: int)
      modifies this
      ensures View() == OnPropose(old(View()), cmd, now)
    {
      var entry := LogEntry(currentTerm, |log| + 1, cmd, now, "cluster-internal");
      log := log + [entry];
      commitIndex := entry.index;
      ApplyCommittedEntries();
    }
  }
}
