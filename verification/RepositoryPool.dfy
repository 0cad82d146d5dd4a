/** The bounded pool of repositories and its cached statistics. Times are clock readings handed in
    by the caller. */
module RepositoryPool {
  import opened Basics

  type RepoId = string

  datatype Entry = Entry(path: string, createdAt: int, lastAccessed: int, accessCount: nat)

  datatype Stats = Stats(total: nat, active: nat, idle: nat, details: map<RepoId, Entry>)

  datatype Config = Config(maxIdleTime: int, maxRepositories: int, enableMetrics: bool)

  const MEMORY: string := ":memory:"

  const STATS_TTL: int := 5_000_000_000

  datatype Pool = Pool(repos: map<RepoId, Entry>, cached: Option<Stats>, cachedAt: int)

  // ------------------------------------------------------------------------ operations

  predicate Idle(c: Config, e: Entry, now: int) {
    e.lastAccessed < now - c.maxIdleTime
  }

  function IdleIds(c: Config, repos: map<RepoId, Entry>, now: int): set<RepoId> {
    set id | id in repos && Idle(c, repos[id], now)
  }

  /** Removes exactly the repositories idle past the cutoff; the cache goes if any went. */
  function Evict(c: Config, p: Pool, now: int): Pool {
    var idle := IdleIds(c, p.repos, now);
    if idle == {} then p else Pool(p.repos - idle, None, 0)
  }

  function Touched(e: Entry, now: int): Entry {
    e.(lastAccessed := now, accessCount := e.accessCount + 1)
  }

  predicate Full(c: Config, p: Pool) {
    |p.repos.Keys| >= c.maxRepositories
  }

  /** `evictAt` is the clock when room has to be made, `now` when the entry is made or used. */
  function Get(c: Config, p: Pool, id: RepoId, path: string, evictAt: int, now: int): Pool {
    if id in p.repos then p.(repos := p.repos[id := Touched(p.repos[id], now)])
    else
      var p1 := if Full(c, p) then Evict(c, p, evictAt) else p;
      if Full(c, p) && IdleIds(c, p.repos, evictAt) == {} then p1
      else Pool(p1.repos[id := Entry(path, now, now, 1)], None, 0)
  }

  function Remove(p: Pool, id: RepoId): Pool {
    if id in p.repos then Pool(p.repos - {id}, None, 0) else p
  }

  predicate Fresh(p: Pool, now: int) {
    p.cached.Some? && now - p.cachedAt < STATS_TTL
  }

  function ActiveIds(c: Config, repos: map<RepoId, Entry>, now: int): set<RepoId> {
    set id | id in repos && repos[id].lastAccessed > now - c.maxIdleTime
  }

  function Measure(c: Config, repos: map<RepoId, Entry>, now: int): Stats {
    var active := |ActiveIds(c, repos, now)|;
    Stats(|repos.Keys|, active, |repos.Keys - ActiveIds(c, repos, now)|,
          if c.enableMetrics then repos else map[])
  }

  function Report(c: Config, p: Pool, now: int): Pool {
    if Fresh(p, now) then p else p.(cached := Some(Measure(c, p.repos, now)), cachedAt := now)
  }

  /** A caller that holds an entry marks it as used; this does not touch the cache. */
  function Use(p: Pool, id: RepoId, now: int): Pool {
    if id in p.repos then p.(repos := p.repos[id := Touched(p.repos[id], now)]) else p
  }

  datatype Op =
    | GetOp(id: RepoId, path: string, evictAt: int, now: int)
    | RemoveOp(id: RepoId)
    | CleanupOp(now: int)
    | ReportOp(now: int)
    | UseOp(id: RepoId, now: int)

  function Step(c: Config, p: Pool, op: Op): Pool {
    match op
    case GetOp(id, path, evictAt, now) => Get(c, p, id, path, evictAt, now)
    case RemoveOp(id) => Remove(p, id)
    case CleanupOp(now) => Evict(c, p, now)
    case ReportOp(now) => Report(c, p, now)
    case UseOp(id, now) => Use(p, id, now)
  }

  function Run(c: Config, ops: seq<Op>): Pool {
    if ops == [] then Pool(map[], None, 0) else Step(c, Run(c, ops[..|ops| - 1]), ops[|ops| - 1])
  }

  // ------------------------------------------------------------------------- invariant

  /** Statistics that agree with the pool on size and membership. */
  predicate Agrees(c: Config, repos: map<RepoId, Entry>, s: Stats) {
    && s.total == |repos.Keys|
    && s.active + s.idle == s.total
    && s.details.Keys == (if c.enableMetrics then repos.Keys else {})
  }

  predicate Good(c: Config, p: Pool) {
    && |p.repos.Keys| <= c.maxRepositories
    && (p.cached.Some? ==> Agrees(c, p.repos, p.cached.value))
  }

  lemma SmallerKeys(repos: map<RepoId, Entry>, gone: set<RepoId>)
    requires gone <= repos.Keys
    ensures (repos - gone).Keys == repos.Keys - gone
    ensures |(repos - gone).Keys| == |repos.Keys| - |gone|
  {
  }

  lemma MeasureAgrees(c: Config, repos: map<RepoId, Entry>, now: int)
    ensures Agrees(c, repos, Measure(c, repos, now))
  {
    var active := ActiveIds(c, repos, now);
    assert repos.Keys == active + (repos.Keys - active);
  }

  lemma SameKeys(p: Pool, id: RepoId, e: Entry)
    requires id in p.repos
    ensures p.repos[id := e].Keys == p.repos.Keys
  {
  }

  lemma GetGood(c: Config, p: Pool, id: RepoId, path: string, evictAt: int, now: int)
    requires Good(c, p) && c.maxRepositories > 0
    ensures Good(c, Get(c, p, id, path, evictAt, now))
  {
    if id in p.repos {
      SameKeys(p, id, Touched(p.repos[id], now));
    } else {
      var idle := IdleIds(c, p.repos, evictAt);
      var p1 := if Full(c, p) then Evict(c, p, evictAt) else p;
      if !(Full(c, p) && idle == {}) {
        SmallerKeys(p.repos, idle);
        AddedGood(c, p1, id, Entry(path, now, now, 1));
      }
    }
  }

  lemma AddedGood(c: Config, p: Pool, id: RepoId, e: Entry)
    requires |p.repos.Keys| < c.maxRepositories
    ensures Good(c, Pool(p.repos[id := e], None, 0))
  {
    assert p.repos[id := e].Keys == p.repos.Keys + {id};
  }

  lemma RemoveGood(c: Config, p: Pool, id: RepoId)
    requires Good(c, p)
    ensures Good(c, Remove(p, id))
  {
    if id in p.repos {
      SmallerKeys(p.repos, {id});
    }
  }

  lemma EvictGood(c: Config, p: Pool, now: int)
    requires Good(c, p)
    ensures Good(c, Evict(c, p, now))
  {
    SmallerKeys(p.repos, IdleIds(c, p.repos, now));
  }

  lemma UseGood(c: Config, p: Pool, id: RepoId, now: int)
    requires Good(c, p)
    ensures Good(c, Use(p, id, now))
  {
    if id in p.repos {
      SameKeys(p, id, Touched(p.repos[id], now));
    }
  }

  lemma GoodStep(c: Config, p: Pool, op: Op)
    requires Good(c, p) && c.maxRepositories > 0
    ensures Good(c, Step(c, p, op))
  {
    match op
    case GetOp(id, path, evictAt, now) => GetGood(c, p, id, path, evictAt, now);
    case RemoveOp(id) => RemoveGood(c, p, id);
    case CleanupOp(now) => EvictGood(c, p, now);
    case ReportOp(now) => MeasureAgrees(c, p.repos, now);
    case UseOp(id, now) => UseGood(c, p, id, now);
  }

  /** In every run with a positive limit the pool stays within the limit, and cached statistics,
      if there are any, agree with the pool. */
  lemma {:induction false} PoolStaysGood(c: Config, ops: seq<Op>)
    requires c.maxRepositories > 0
    ensures Good(c, Run(c, ops))
  {
    if ops != [] {
      PoolStaysGood(c, ops[..|ops| - 1]);
      GoodStep(c, Run(c, ops[..|ops| - 1]), ops[|ops| - 1]);
    }
  }

  /** Eviction removes exactly the repositories idle past the cutoff, and keeps the others as they
      are. */
  lemma EvictsExactlyIdle(c: Config, p: Pool, now: int, id: RepoId)
    ensures id in Evict(c, p, now).repos <==> id in p.repos && !Idle(c, p.repos[id], now)
    ensures id in Evict(c, p, now).repos ==> Evict(c, p, now).repos[id] == p.repos[id]
  {
    assert id in p.repos && Idle(c, p.repos[id], now) ==> id in IdleIds(c, p.repos, now);
  }

  /** A repository is there after a request if and only if it was there before, or there was room, or
      some repository was idle. */
  lemma GetServesIff(c: Config, p: Pool, id: RepoId, path: string, evictAt: int, now: int)
    ensures id in Get(c, p, id, path, evictAt, now).repos <==>
            id in p.repos || |p.repos.Keys| < c.maxRepositories
            || exists x | x in p.repos :: Idle(c, p.repos[x], evictAt)
    ensures id !in p.repos && id in Get(c, p, id, path, evictAt, now).repos ==>
              Get(c, p, id, path, evictAt, now).repos[id] == Entry(path, now, now, 1)
  {
    if x :| x in p.repos && Idle(c, p.repos[x], evictAt) {
      assert x in IdleIds(c, p.repos, evictAt);
    }
  }

  /** Removing takes away that repository and no other. */
  lemma RemovedIsGone(p: Pool, id: RepoId, x: RepoId)
    ensures x in Remove(p, id).repos <==> x in p.repos && x != id
    ensures x in Remove(p, id).repos ==> Remove(p, id).repos[x] == p.repos[x]
  {
  }

  /** The cached statistics are what some report of the run measured, at the time it says. */
  ghost predicate Measured(c: Config, ops: seq<Op>, stats: Stats, at: int) {
    exists i | 0 <= i < |ops| :: MeasuredBy(c, ops[..i], ops[i], stats, at)
  }

  predicate MeasuredBy(c: Config, before: seq<Op>, op: Op, stats: Stats, at: int) {
    op == ReportOp(at) && stats == Measure(c, Run(c, before).repos, at)
  }

  /** What is cached after a step was cached before or has just been measured. */
  lemma CachedStep(c: Config, p: Pool, op: Op)
    ensures var p' := Step(c, p, op);
            p'.cached.Some? ==>
              || (p'.cached == p.cached && p'.cachedAt == p.cachedAt)
              || (op == ReportOp(p'.cachedAt) && p'.cached.value == Measure(c, p.repos, p'.cachedAt))
  {
  }

  lemma MeasuredStill(c: Config, before: seq<Op>, op: Op, stats: Stats, at: int)
    requires Measured(c, before, stats, at) || MeasuredBy(c, before, op, stats, at)
    ensures Measured(c, before + [op], stats, at)
  {
    var ops := before + [op];
    if MeasuredBy(c, before, op, stats, at) {
      assert ops[..|before|] == before;
      assert MeasuredBy(c, ops[..|before|], ops[|before|], stats, at);
    } else {
      var i :| 0 <= i < |before| && MeasuredBy(c, before[..i], before[i], stats, at);
      assert before[..i] == ops[..i];
      assert MeasuredBy(c, ops[..i], ops[i], stats, at);
    }
  }

  lemma {:induction false} CachedIsMeasured(c: Config, ops: seq<Op>)
    ensures var p := Run(c, ops);
            p.cached.Some? ==> Measured(c, ops, p.cached.value, p.cachedAt)
  {
    if ops != [] {
      var before, op := ops[..|ops| - 1], ops[|ops| - 1];
      var p' := Run(c, ops);
      assert ops == before + [op];
      CachedIsMeasured(c, before);
      CachedStep(c, Run(c, before), op);
      if p'.cached.Some? {
        MeasuredStill(c, before, op, p'.cached.value, p'.cachedAt);
      }
    }
  }

  /** In every run a report hands out statistics that were measured less than five seconds before, in
      a state of the pool that the run went through. It measures again only when it has to. */
  lemma ReportIsRecent(c: Config, ops: seq<Op>, now: int)
    ensures var p := Run(c, ops + [ReportOp(now)]);
            && p.cached.Some? && now - p.cachedAt < 5_000_000_000
            && Measured(c, ops + [ReportOp(now)], p.cached.value, p.cachedAt)
    ensures var p := Run(c, ops);
            p.cached.Some? && now - p.cachedAt < 5_000_000_000 ==>
              Run(c, ops + [ReportOp(now)]) == p
  {
    assert (ops + [ReportOp(now)])[..|ops|] == ops;
    CachedIsMeasured(c, ops + [ReportOp(now)]);
  }

  /** The times at which the operations use the repository. */
  function Uses(ops: seq<Op>, id: RepoId): seq<int> {
    if ops == [] then []
    else
      var op := ops[|ops| - 1];
      Uses(ops[..|ops| - 1], id) +
      if (op.GetOp? || op.UseOp?) && op.id == id then [op.now] else []
  }

  /** The operation does not remove the repository, clears away nothing used since `since`, and does
      not use the repository before then. */
  predicate Spares(c: Config, op: Op, id: RepoId, since: int) {
    match op
    case GetOp(x, _, evictAt, now) => evictAt <= since + c.maxIdleTime && (x == id ==> now >= since)
    case RemoveOp(x) => x != id
    case CleanupOp(now) => now <= since + c.maxIdleTime
    case ReportOp(_) => true
    case UseOp(x, now) => x == id ==> now >= since
  }

  function RunFrom(c: Config, p: Pool, ops: seq<Op>): Pool {
    if ops == [] then p else Step(c, RunFrom(c, p, ops[..|ops| - 1]), ops[|ops| - 1])
  }

  function LastOf(times: seq<int>, otherwise: int): int {
    if times == [] then otherwise else times[|times| - 1]
  }

  lemma SparedStep(c: Config, p: Pool, op: Op, id: RepoId, since: int)
    requires id in p.repos && p.repos[id].lastAccessed >= since && Spares(c, op, id, since)
    ensures var p' := Step(c, p, op);
            && id in p'.repos && p'.repos[id].lastAccessed >= since
            && p'.repos[id] ==
               if (op.GetOp? || op.UseOp?) && op.id == id
               then p.repos[id].(lastAccessed := op.now, accessCount := p.repos[id].accessCount + 1)
               else p.repos[id]
  {
    match op
    case GetOp(_, _, evictAt, _) => EvictsExactlyIdle(c, p, evictAt, id);
    case CleanupOp(now) => EvictsExactlyIdle(c, p, now, id);
    case _ =>
  }

  /** In every run in which nobody removes it and no clearing comes later than the idle time after
      `since`, a repository that was used at `since` stays, with its path and its time of creation,
      the time of its last use and an exact count of its uses. */
  lemma {:induction false} UsedRepositoryStays(c: Config, p: Pool, ops: seq<Op>, id: RepoId,
                                               since: int)
    requires id in p.repos && p.repos[id].lastAccessed >= since
    requires forall i | 0 <= i < |ops| :: Spares(c, ops[i], id, since)
    ensures var p', uses := RunFrom(c, p, ops), Uses(ops, id);
            && id in p'.repos && p'.repos[id].lastAccessed >= since
            && p'.repos[id] == Entry(p.repos[id].path, p.repos[id].createdAt,
                                     LastOf(uses, p.repos[id].lastAccessed),
                                     p.repos[id].accessCount + |uses|)
  {
    if ops != [] {
      var before, op := ops[..|ops| - 1], ops[|ops| - 1];
      assert forall i | 0 <= i < |before| :: before[i] == ops[i];
      UsedRepositoryStays(c, p, before, id, since);
      SparedStep(c, RunFrom(c, p, before), op, id, since);
    }
  }

  /** Used exactly one idle time ago: counted as idle, but not cleared away yet. */
  function AtCutoff(c: Config, repos: map<RepoId, Entry>, now: int): set<RepoId> {
    set id | id in repos && repos[id].lastAccessed == now - c.maxIdleTime
  }

  /** Fresh statistics count as idle what a clearing at the same time would remove and what lies
      right at the cutoff, and as active everything else. */
  lemma StatsMatchEviction(c: Config, p: Pool, now: int)
    ensures var stats, left := Measure(c, p.repos, now), Evict(c, p, now).repos;
            && stats.idle == |IdleIds(c, p.repos, now)| + |AtCutoff(c, p.repos, now)|
            && stats.active == |left.Keys| - |AtCutoff(c, p.repos, now)|
            && stats.total == |p.repos.Keys|
            && (forall id :: id in stats.details <==> c.enableMetrics && id in p.repos)
            && (forall id | id in stats.details :: stats.details[id] == p.repos[id])
  {
    var active, idle := ActiveIds(c, p.repos, now), IdleIds(c, p.repos, now);
    var edge := AtCutoff(c, p.repos, now);
    ThreeParts(p.repos.Keys, active, idle, edge);
    SmallerKeys(p.repos, idle);
    assert Evict(c, p, now).repos.Keys == p.repos.Keys - idle;
  }

  lemma ThreeParts(all: set<RepoId>, a: set<RepoId>, b: set<RepoId>, c: set<RepoId>)
    requires all == a + b + c && a !! b && a !! c && b !! c
    ensures |all - a| == |b| + |c| && |all - b| == |a| + |c|
  {
    assert all - a == b + c && all - b == a + c;
  }

  /** Closing empties the pool and leaves the cached statistics alone. */
  function Close(p: Pool): Pool {
    p.(repos := map[])
  }

  /** After closing, the cached statistics agree with the pool if and only if there are none or the
      pool was empty already. */
  lemma ClosedAgreesIff(c: Config, p: Pool)
    requires Good(c, p)
    ensures Good(c, Close(p)) <==> p.cached == None || p.repos.Keys == {}
  {
    if p.cached.Some? && p.repos.Keys != {} {
      var id :| id in p.repos.Keys;
      assert |p.repos.Keys| > 0;
    }
    if p.repos.Keys == {} {
      assert p.repos == map[];
    }
  }

  lemma FirstRepository(c: Config, id: RepoId, path: string, t: int)
    requires c.maxRepositories > 0
    ensures Run(c, [GetOp(id, path, t, t)]) == Pool(map[id := Entry(path, t, t, 1)], None, 0)
  {
    var empty := Pool(map[], None, 0);
    assert [GetOp(id, path, t, t)][..0] == [];
    assert empty.repos.Keys == {} && !Full(c, empty);
  }

  /** One repository, a report and a close: the report that is still cached counts one. */
  lemma ClosedPoolStillCounts(c: Config, id: RepoId, path: string, t: int)
    requires c.maxRepositories > 0
    ensures var p := Close(Run(c, [GetOp(id, path, t, t), ReportOp(t)]));
            p.repos == map[] && p.cached.Some? && p.cached.value.total == 1 && !Good(c, p)
  {
    var get, report := GetOp(id, path, t, t), ReportOp(t);
    assert [get, report][..1] == [get];
    FirstRepository(c, id, path, t);
    assert Run(c, [get]).repos.Keys == {id};
  }

  // ---------------------------------------------------------------- the pool as an object

  class Repositories {
    const config: Config
    var repos: map<RepoId, Entry>
    var cached: Option<Stats>
    var cachedAt: int

    ghost function View(): Pool
      reads this
    {
      Pool(repos, cached, cachedAt)
    }

    /** A limit or idle time of zero means the default. */
    constructor (config: Config)
      ensures View() == Pool(map[], None, 0)
      ensures this.config ==
              Config(if config.maxIdleTime == 0 then 1_800_000_000_000 else config.maxIdleTime,
                     if config.maxRepositories == 0 then 100 else config.maxRepositories,
                     config.enableMetrics)
    {
      this.config :=
        Config(if config.maxIdleTime == 0 then 1_800_000_000_000 else config.maxIdleTime,
               if config.maxRepositories == 0 then 100 else config.maxRepositories,
               config.enableMetrics);
      repos, cached, cachedAt := map[], None, 0;
    }

    method EvictIdleRepositories(now: int) returns (evicted: nat)
      modifies this
      ensures View() == Evict(config, old(View()), now)
      ensures evicted == |IdleIds(config, old(repos), now)|
    {
      evicted := 0;
      var cutoff := now - config.maxIdleTime;
      var rest := repos.Keys;
      ghost var gone: set<RepoId> := {};
      while rest != {}
        invariant rest <= old(repos).Keys && gone !! rest
        invariant gone == set id | id in old(repos) && id !in rest && Idle(config, old(repos)[id], now)
        invariant repos == old(repos) - gone && evicted == |gone|
        invariant cached == old(cached) && cachedAt == old(cachedAt)
      {
        var id :| id in rest;
        var lastAccessed := repos[id].lastAccessed;
        if lastAccessed < cutoff {
          repos := repos - {id};
          evicted := evicted + 1;
          gone := gone + {id};
        }
        rest := rest - {id};
      }
      assert gone == IdleIds(config, old(repos), now);
      if evicted > 0 {
        cached, cachedAt := None, 0;
      } else {
        assert old(repos) - gone == old(repos);
      }
    }

    method GetRepository(id: RepoId, path: string, memoryOnly: bool, evictAt: int, now: int)
      returns (ok: bool)
      modifies this
      ensures View() == Get(config, old(View()), id, if memoryOnly then MEMORY else path, evictAt, now)
      ensures ok <==> id in repos
    {
      if id in repos {
        repos := repos[id := Touched(repos[id], now)];
        return true;
      }
      if |repos.Keys| >= config.maxRepositories {
        var evicted := EvictIdleRepositories(evictAt);
        if evicted == 0 && |repos.Keys| >= config.maxRepositories {
          return false;
        }
      }
      var where := path;
      if memoryOnly || path == MEMORY {
        where := MEMORY;
      }
      repos := repos[id := Entry(where, now, now, 1)];
      cached, cachedAt := None, 0;
      ok := true;
    }

    method RemoveRepository(id: RepoId) returns (ok: bool)
      modifies this
      ensures View() == Remove(old(View()), id)
      ensures ok <==> id in old(repos)
    {
      if id in repos {
        repos := repos - {id};
        cached, cachedAt := None, 0;
        return true;
      }
      ok := false;
    }

    /** The statistics handed out agree with the pool, cached or not. */
    method GetStats(now: int) returns (stats: Stats)
      modifies this`cached, this`cachedAt
      ensures View() == Report(config, old(View()), now) && cached == Some(stats)
      ensures Good(config, old(View())) ==> Agrees(config, repos, stats)
    {
      if cached.Some? && now - cachedAt < STATS_TTL {
        return cached.value;
      }
      var active, idle := CountActive(now);
      stats := Stats(|repos.Keys|, active, idle, if config.enableMetrics then repos else map[]);
      MeasureAgrees(config, repos, now);
      cached, cachedAt := Some(stats), now;
    }

    method CountActive(now: int) returns (active: nat, idle: nat)
      ensures active == |ActiveIds(config, repos, now)|
      ensures idle == |repos.Keys - ActiveIds(config, repos, now)|
    {
      active, idle := 0, 0;
      var threshold := now - config.maxIdleTime;
      var rest := repos.Keys;
      ghost var live: set<RepoId> := {};
      while rest != {}
        invariant rest <= repos.Keys
        invariant live == set id | id in repos && id !in rest && repos[id].lastAccessed > threshold
        invariant active == |live| && active + idle + |rest| == |repos.Keys|
      {
        var id :| id in rest;
        if repos[id].lastAccessed > threshold {
          active := active + 1;
          assert id !in live;
          live := live + {id};
        } else {
          idle := idle + 1;
        }
        rest := rest - {id};
      }
      assert live == ActiveIds(config, repos, now);
      assert repos.Keys == live + (repos.Keys - live);
    }
  }
}
