/** The rate limit on failovers. Times are clock readings handed in by the caller. */
module Failover {
  import opened Basics

  type NodeId = string

  datatype Kind = NodeFailure | LeaderElection

  datatype Status = Pending | Active | Completed | Failed

  datatype Event = Event(kind: Kind, source: NodeId, target: NodeId, status: Status, startedAt: int)

  datatype Policy = Policy(maxFailovers: int, cooldown: int)

  // ------------------------------------------------------------------------ counting

  /** How many events of the node started after the cutoff. */
  function CountAfter(log: seq<Event>, node: NodeId, cutoff: int): nat {
    if log == [] then 0
    else
      var last := log[|log| - 1];
      CountAfter(log[..|log| - 1], node, cutoff) +
      if last.source == node && last.startedAt > cutoff then 1 else 0
  }

  /** How many events of the node started in (t - width, t]. */
  function Window(log: seq<Event>, node: NodeId, t: int, width: int): nat {
    if log == [] then 0
    else
      var last := log[|log| - 1];
      Window(log[..|log| - 1], node, t, width) +
      if last.source == node && t - width < last.startedAt <= t then 1 else 0
  }

  lemma {:induction false} WindowWithin(log: seq<Event>, node: NodeId, t: int, width: int,
                                        cutoff: int)
    requires cutoff <= t - width
    ensures Window(log, node, t, width) <= CountAfter(log, node, cutoff)
  {
    if log != [] {
      WindowWithin(log[..|log| - 1], node, t, width, cutoff);
    }
  }

  // ------------------------------------------------------------------------- the runs

  /** `checkedAt` and `startedAt` are two readings of the clock; `replacement` is empty when no
      suitable node was found. Elections take the lock only after reading the clock. */
  datatype Op =
    | Failure(node: NodeId, checkedAt: int, startedAt: int, replacement: NodeId)
    | Election(candidate: NodeId, startedAt: int)

  predicate InCooldown(p: Policy, log: seq<Event>, node: NodeId, now: int) {
    CountAfter(log, node, now - p.cooldown) >= p.maxFailovers
  }

  /** The log holds a copy of each event as it was when it was appended: what happens to the
      event afterwards does not reach it. */
  function Step(p: Policy, log: seq<Event>, op: Op): seq<Event> {
    match op
    case Failure(node, checkedAt, startedAt, _) =>
      if InCooldown(p, log, node, checkedAt) then log
      else log + [Event(NodeFailure, node, "", Pending, startedAt)]
    case Election(candidate, startedAt) =>
      if candidate == "" then log
      else log + [Event(LeaderElection, "", candidate, Active, startedAt)]
  }

  function Run(p: Policy, ops: seq<Op>): seq<Event> {
    if ops == [] then [] else Step(p, Run(p, ops[..|ops| - 1]), ops[|ops| - 1])
  }

  /** The second reading of the clock is not before the first; nothing is asked of readings in
      different calls. */
  predicate ClockForward(ops: seq<Op>) {
    forall i | 0 <= i < |ops| && ops[i].Failure? :: ops[i].checkedAt <= ops[i].startedAt
  }

  function Limit(p: Policy): nat {
    if p.maxFailovers > 0 then p.maxFailovers else 0
  }

  /** In every run with a forward clock, for every named node and every time t, the log holds at
      most `maxFailovers` events of that node started in (t - cooldown, t], whether or not a
      replacement was found. */
  lemma {:induction false} FailoverLimit(p: Policy, ops: seq<Op>, node: NodeId, t: int)
    requires ClockForward(ops) && node != ""
    ensures Window(Run(p, ops), node, t, p.cooldown) <= Limit(p)
  {
    if ops != [] {
      var before, op := ops[..|ops| - 1], ops[|ops| - 1];
      var log, after := Run(p, before), Run(p, ops);
      assert ClockForward(before) by {
        assert forall i | 0 <= i < |before| :: before[i] == ops[i];
      }
      FailoverLimit(p, before, node, t);
      if after != log {
        assert after[..|log|] == log;
        if op.Failure? && op.node == node && op.startedAt <= t {
          WindowWithin(log, node, t, p.cooldown, op.checkedAt - p.cooldown);
        }
      }
    }
  }

  // ------------------------------------------------------------------- failures that are handled

  /** The events of the node that started after the cutoff, by their places in the log. */
  ghost function Recent(log: seq<Event>, node: NodeId, cutoff: int): set<nat> {
    set i: nat | i < |log| && log[i].source == node && log[i].startedAt > cutoff
  }

  lemma {:induction false} CountIsRecent(log: seq<Event>, node: NodeId, cutoff: int)
    ensures CountAfter(log, node, cutoff) == |Recent(log, node, cutoff)|
  {
    if log != [] {
      var n := |log| - 1;
      CountIsRecent(log[..n], node, cutoff);
      assert Recent(log, node, cutoff) == Recent(log[..n], node, cutoff) +
             if log[n].source == node && log[n].startedAt > cutoff then {n} else {};
    }
  }

  /** In every run a failure is logged, once and at the end, if and only if fewer than
      `maxFailovers` events of the node started within the cooldown before it or later. */
  lemma FailureLoggedIff(p: Policy, ops: seq<Op>, node: NodeId, checkedAt: int, startedAt: int,
                         replacement: NodeId)
    ensures var log, after := Run(p, ops),
                              Run(p, ops + [Failure(node, checkedAt, startedAt, replacement)]);
            after == if |Recent(log, node, checkedAt - p.cooldown)| < p.maxFailovers
                     then log + [Event(NodeFailure, node, "", Pending, startedAt)] else log
  {
    var op := Failure(node, checkedAt, startedAt, replacement);
    assert (ops + [op])[..|ops|] == ops;
    CountIsRecent(Run(p, ops), node, checkedAt - p.cooldown);
  }

  /** The event as it is logged when the operation starts it. */
  predicate Records(e: Event, op: Op) {
    match op
    case Failure(node, _, startedAt, _) => e == Event(NodeFailure, node, "", Pending, startedAt)
    case Election(candidate, startedAt) =>
      candidate != "" && e == Event(LeaderElection, "", candidate, Active, startedAt)
  }

  /** In every run the log records operations in their order, each at most once, and among them every
      election that has a candidate. */
  lemma {:induction false} LogRecordsRun(p: Policy, ops: seq<Op>) returns (at: seq<nat>)
    ensures Positions(at, |ops|) && |at| == |Run(p, ops)|
    ensures forall i | 0 <= i < |at| :: Records(Run(p, ops)[i], ops[at[i]])
    ensures forall j | 0 <= j < |ops| && ops[j].Election? && ops[j].candidate != "" :: j in at
  {
    if ops == [] {
      at := [];
    } else {
      var n := |ops| - 1;
      var log := Run(p, ops[..n]);
      at := LogRecordsRun(p, ops[..n]);
      if Run(p, ops) != log {
        at := at + [n];
      } else if ops[n].Election? {
        assert |Run(p, ops)| == |log|;
      }
    }
  }

  function Failures(node: NodeId, t: int, n: nat): seq<Op> {
    if n == 0 then [] else Failures(node, t, n - 1) + [Failure(node, t, t, "")]
  }

  /** All events are of one node and of one time. */
  predicate Burst(log: seq<Event>, node: NodeId, t: int) {
    forall i | 0 <= i < |log| :: log[i].source == node && log[i].startedAt == t
  }

  lemma {:induction false} BurstCount(log: seq<Event>, node: NodeId, t: int, width: int)
    requires Burst(log, node, t) && width > 0
    ensures Window(log, node, t, width) == CountAfter(log, node, t - width) == |log|
  {
    if log != [] {
      BurstCount(log[..|log| - 1], node, t, width);
    }
  }

  lemma BurstStep(p: Policy, log: seq<Event>, node: NodeId, t: int)
    requires p.cooldown > 0 && Burst(log, node, t)
    ensures var after := Step(p, log, Failure(node, t, t, ""));
            Burst(after, node, t) && |after| == |log| + if |log| < p.maxFailovers then 1 else 0
  {
    BurstCount(log, node, t, p.cooldown);
  }

  lemma RunFailure(p: Policy, ops: seq<Op>, op: Op)
    ensures Run(p, ops + [op]) == Step(p, Run(p, ops), op)
  {
    assert (ops + [op])[..|ops|] == ops;
  }

  lemma {:induction false} BurstRun(p: Policy, node: NodeId, t: int, n: nat)
    requires p.cooldown > 0
    ensures var log := Run(p, Failures(node, t, n));
            Burst(log, node, t) && |log| == if n <= Limit(p) then n else Limit(p)
  {
    if n > 0 {
      var before := Failures(node, t, n - 1);
      BurstRun(p, node, t, n - 1);
      RunFailure(p, before, Failure(node, t, t, ""));
      BurstStep(p, Run(p, before), node, t);
    }
  }

  /** However often a node fails at one time, the failures up to the limit are all logged. */
  lemma LimitIsReached(p: Policy, node: NodeId, t: int, n: nat)
    requires p.cooldown > 0
    ensures Window(Run(p, Failures(node, t, n)), node, t, p.cooldown) ==
            if n <= Limit(p) then n else Limit(p)
  {
    BurstRun(p, node, t, n);
    BurstCount(Run(p, Failures(node, t, n)), node, t, p.cooldown);
  }

  // ------------------------------------------------------------------------ elections

  lemma {:induction false} EmptyWindow(log: seq<Event>, node: NodeId, t: int, width: int)
    requires width <= 0
    ensures Window(log, node, t, width) == 0
  {
    if log != [] {
      EmptyWindow(log[..|log| - 1], node, t, width);
    }
  }

  function Elections(n: nat): seq<Op> {
    if n == 0 then [] else Elections(n - 1) + [Election("a", 0)]
  }

  lemma RunElection(p: Policy, ops: seq<Op>)
    ensures Run(p, ops + [Election("a", 0)]) ==
            Run(p, ops) + [Event(LeaderElection, "", "a", Active, 0)]
  {
    assert (ops + [Election("a", 0)])[..|ops|] == ops;
  }

  lemma WindowGrows(log: seq<Event>, e: Event, t: int, width: int)
    requires t - width < e.startedAt <= t
    ensures Window(log + [e], e.source, t, width) == Window(log, e.source, t, width) + 1
  {
    assert (log + [e])[..|log|] == log;
  }

  /** Elections are logged under the empty node id, and nothing limits them. */
  lemma {:induction false} ElectionsAreNotLimited(p: Policy, n: nat)
    requires p.cooldown > 0
    ensures ClockForward(Elections(n))
    ensures Window(Run(p, Elections(n)), "", 0, p.cooldown) == n
  {
    if n > 0 {
      ElectionsAreNotLimited(p, n - 1);
      RunElection(p, Elections(n - 1));
      WindowGrows(Run(p, Elections(n - 1)), Event(LeaderElection, "", "a", Active, 0), 0, p.cooldown);
    }
  }

  /** The limit holds in every run, at every time, if and only if the node has a name or the window
      is empty. */
  lemma FailoverLimitIff(p: Policy, node: NodeId)
    ensures (forall ops, t: int | ClockForward(ops) ::
               Window(Run(p, ops), node, t, p.cooldown) <= Limit(p))
            <==> node != "" || p.cooldown <= 0
  {
    if node != "" || p.cooldown <= 0 {
      forall ops, t: int | ClockForward(ops)
        ensures Window(Run(p, ops), node, t, p.cooldown) <= Limit(p)
      {
        if node != "" {
          FailoverLimit(p, ops, node, t);
        } else {
          EmptyWindow(Run(p, ops), node, t, p.cooldown);
        }
      }
    } else {
      ElectionsAreNotLimited(p, Limit(p) + 1);
    }
  }

  // ------------------------------------------------------------- the manager as an object

  class FailoverManager {
    const policy: Policy
    var eventLog: seq<Event>

    constructor (policy: Policy)
      ensures this.policy == policy && eventLog == []
    {
      this.policy := policy;
      eventLog := [];
    }

    method IsInCooldown(node: NodeId, now: int) returns (r: bool)
      ensures r <==> InCooldown(policy, eventLog, node, now)
    {
      var cutoff := now - policy.cooldown;
      var count := 0;
      for i := 0 to |eventLog|
        invariant count == CountAfter(eventLog[..i], node, cutoff)
      {
        assert eventLog[..i + 1][..i] == eventLog[..i];
        if eventLog[i].source == node && eventLog[i].startedAt > cutoff {
          count := count + 1;
        }
      }
      assert eventLog[..|eventLog|] == eventLog;
      r := count >= policy.maxFailovers;
    }

    /** Returns the event as the background migration goes on with it. The log holds a copy from
        before, which stays pending and without a target. */
    method HandleNodeFailure(node: NodeId, checkedAt: int, startedAt: int, replacement: NodeId)
      returns (handled: bool, event: Event)
      modifies this`eventLog
      ensures eventLog ==
              Step(policy, old(eventLog), Failure(node, checkedAt, startedAt, replacement))
      ensures handled <==> eventLog != old(eventLog)
      ensures handled ==>
                && event == Event(NodeFailure, node, replacement,
                                  if replacement == "" then Failed else Active, startedAt)
                && eventLog == old(eventLog) + [event.(target := "", status := Pending)]
    {
      event := Event(NodeFailure, node, "", Pending, startedAt);
      var cooling := IsInCooldown(node, checkedAt);
      if cooling {
        return false, event;
      }
      eventLog := eventLog + [event];
      handled := true;
      if replacement == "" {
        event := event.(status := Failed);
        return;
      }
      event := event.(target := replacement, status := Active);
    }

    method LogElection(candidate: NodeId, startedAt: int)
      modifies this`eventLog
      ensures eventLog == Step(policy, old(eventLog), Election(candidate, startedAt))
    {
      if candidate == "" {
        return;
      }
      eventLog := eventLog + [Event(LeaderElection, "", candidate, Active, startedAt)];
    }
  }
}
