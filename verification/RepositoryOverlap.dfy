/** Migrations that list the same repository.

    Nothing keeps two shard migrations from naming one repository. Read as edges from source to
    target, the migrations that list it decide its fate: it can vanish if and only if they lead from
    where it is into a cycle. */
module RepositoryOverlap {
  import opened Basics
  import opened RepositoryMigration

  /** Migration `k` lists the repository and runs between known nodes. */
  predicate Moves(s: System, k: nat, r: RepoId) {
    k < |s.jobs| && r in s.jobs[k].repos && s.jobs[k].source in s.stores && s.jobs[k].target in s.stores
  }

  /** The repository is on `x` and nowhere else, and no migration has started. */
  ghost predicate OnlyAt(s: System, r: RepoId, v: Repo, x: NodeId) {
    && Initial(s) && Has(s.stores, x, r, v)
    && forall n | n in s.stores && n != x :: r !in s.stores[n]
  }

  /** The repository is somewhere. */
  ghost predicate Kept(s: System, schedule: seq<nat>, r: RepoId, v: Repo) {
    exists n :: Has(Run(s, schedule).stores, n, r, v)
  }

  // ---------------------------------------------------------------------- chains and cycles

  predicate MovesBetween(s: System, k: nat, r: RepoId, n: NodeId, m: NodeId) {
    Moves(s, k, r) && s.jobs[k].source == n && s.jobs[k].target == m
  }

  /** Some migration of the repository goes from `n` to `m`. */
  ghost predicate Edge(s: System, r: RepoId, n: NodeId, m: NodeId) {
    exists k: nat :: MovesBetween(s, k, r, n, m)
  }

  /** Different nodes, each with an edge to the next. */
  ghost predicate Chain(s: System, r: RepoId, x: NodeId, ns: seq<NodeId>) {
    && ns != [] && ns[0] == x && Distinct(ns)
    && forall i | 0 < i < |ns| :: Edge(s, r, ns[i - 1], ns[i])
  }

  /** A chain that runs back into itself. */
  ghost predicate Lasso(s: System, r: RepoId, x: NodeId, ns: seq<NodeId>) {
    Chain(s, r, x, ns) && exists m | m in ns :: Edge(s, r, ns[|ns| - 1], m)
  }

  ghost predicate LeadsInto(s: System, r: RepoId, n: NodeId, nodes: set<NodeId>) {
    exists m | m in nodes :: Edge(s, r, n, m)
  }

  /** Every node of the set has an edge that stays in the set. */
  ghost predicate Closed(s: System, r: RepoId, nodes: set<NodeId>) {
    forall n {:trigger LeadsInto(s, r, n, nodes)} | n in nodes :: LeadsInto(s, r, n, nodes)
  }

  lemma ChainNext(s: System, r: RepoId, x: NodeId, ns: seq<NodeId>, m: NodeId)
    requires Chain(s, r, x, ns) && Edge(s, r, ns[|ns| - 1], m) && m !in ns
    ensures Chain(s, r, x, ns + [m])
  {
    var longer := ns + [m];
    forall i | 0 < i < |longer| ensures Edge(s, r, longer[i - 1], longer[i]) {
      if i < |ns| { assert Edge(s, r, ns[i - 1], ns[i]); }
    }
  }

  lemma {:induction false} Extend(s: System, r: RepoId, x: NodeId, nodes: set<NodeId>, ns: seq<NodeId>)
    returns (lasso: seq<NodeId>)
    requires Closed(s, r, nodes) && Chain(s, r, x, ns) && Elements(ns) <= nodes
    ensures Lasso(s, r, x, lasso)
    decreases |nodes| - |ns|
  {
    assert ns[|ns| - 1] in Elements(ns);
    assert LeadsInto(s, r, ns[|ns| - 1], nodes);
    var m :| m in nodes && Edge(s, r, ns[|ns| - 1], m);
    if m in ns {
      lasso := ns;
    } else {
      ChainNext(s, r, x, ns, m);
      assert Elements(ns + [m]) == Elements(ns) + {m};
      DistinctSize(ns + [m]);
      SubsetSize(Elements(ns + [m]), nodes);
      lasso := Extend(s, r, x, nodes, ns + [m]);
    }
  }

  // ------------------------------------------------------------- losing it takes a cycle

  ghost function Holders(stores: Stores, r: RepoId): set<NodeId> {
    set n | n in stores && r in stores[n]
  }

  /** The nodes that have had the repository at some moment. */
  ghost function Ever(s: System, schedule: seq<nat>, r: RepoId): set<NodeId> {
    (if schedule == [] then {} else Ever(s, schedule[..|schedule| - 1], r)) +
    Holders(Run(s, schedule).stores, r)
  }

  /** A node that has had it has it, or has a migration that took it on. */
  ghost predicate Trail(s: System, stores: Stores, r: RepoId, ever: set<NodeId>) {
    forall n {:trigger LeadsInto(s, r, n, ever)} | n in ever ::
      (n in stores && r in stores[n]) || LeadsInto(s, r, n, ever)
  }

  /** All copies are the same, and a migration about to delete one has written another. */
  ghost predicate Copies(s: System, t: System, r: RepoId, v: Repo, ever: set<NodeId>) {
    && (forall n | n in t.stores && r in t.stores[n] :: t.stores[n][r] == v)
    && (forall k | 0 <= k < |t.jobs| && t.jobs[k].phase.Write? && Current(t.jobs[k], r) ::
          t.jobs[k].phase.repo == v)
    && (forall k | 0 <= k < |t.jobs| && t.jobs[k].phase == Delete && Current(t.jobs[k], r) ::
          t.jobs[k].target in ever)
  }

  ghost predicate SameShape(s: System, t: System) {
    && |t.jobs| == |s.jobs| && t.stores.Keys == s.stores.Keys
    && forall k | 0 <= k < |s.jobs| ::
         t.jobs[k].source == s.jobs[k].source && t.jobs[k].target == s.jobs[k].target
         && t.jobs[k].repos == s.jobs[k].repos
  }

  lemma ShapeRun(s: System, schedule: seq<nat>)
    ensures SameShape(s, Run(s, schedule))
  {
    SameLists(s, schedule);
    SameNodes(s, schedule);
  }

  lemma CopiesStep(s: System, t: System, m: nat, r: RepoId, v: Repo, ever: set<NodeId>)
    requires SameShape(s, t) && m < |t.jobs| && Copies(s, t, r, v, ever)
    ensures var t' := Step(t, m);
            Copies(s, t', r, v, ever + Holders(t'.stores, r))
  {
    var j, t' := t.jobs[m], Step(t, m);
    if j.phase.Write? && Current(j, r) && j.source in t.stores && j.target in t.stores {
      assert j.target in Holders(t'.stores, r);
    }
  }

  /** Only a migration that deletes the repository takes it from a node. */
  lemma LostOnlyBy(t: System, m: nat, r: RepoId, n: NodeId)
    requires m < |t.jobs| && n in t.stores && r in t.stores[n]
    ensures var t' := Step(t, m);
            && n in t'.stores
            && (r in t'.stores[n] || (t.jobs[m].phase == Delete && Current(t.jobs[m], r)
                                      && t.jobs[m].source == n && t.jobs[m].target in t.stores))
  {
  }

  lemma TrailStep(s: System, t: System, m: nat, r: RepoId, v: Repo, ever: set<NodeId>)
    requires SameShape(s, t) && m < |t.jobs|
    requires Trail(s, t.stores, r, ever) && Copies(s, t, r, v, ever)
    ensures var t' := Step(t, m);
            Trail(s, t'.stores, r, ever + Holders(t'.stores, r))
  {
    var t' := Step(t, m);
    var ever' := ever + Holders(t'.stores, r);
    forall n | n in ever'
      ensures (n in t'.stores && r in t'.stores[n]) || LeadsInto(s, r, n, ever')
    {
      if n in ever {
        if n in t.stores && r in t.stores[n] {
          LostOnlyBy(t, m, r, n);
          if r !in t'.stores[n] {
            assert t.jobs[m].target in ever';
            assert MovesBetween(s, m, r, n, t.jobs[m].target);
            assert Edge(s, r, n, t.jobs[m].target);
          }
        } else {
          assert LeadsInto(s, r, n, ever);
          var o :| o in ever && Edge(s, r, n, o);
          assert o in ever';
        }
      }
    }
  }

  lemma {:induction false} TrailRun(s: System, schedule: seq<nat>, r: RepoId, v: Repo, x: NodeId)
    requires OnlyAt(s, r, v, x)
    ensures var ever := Ever(s, schedule, r);
            && x in ever && Trail(s, Run(s, schedule).stores, r, ever)
            && Copies(s, Run(s, schedule), r, v, ever)
  {
    if schedule != [] {
      var before, m := schedule[..|schedule| - 1], schedule[|schedule| - 1];
      TrailRun(s, before, r, v, x);
      ShapeRun(s, before);
      if m < |Run(s, before).jobs| {
        TrailStep(s, Run(s, before), m, r, v, Ever(s, before, r));
        CopiesStep(s, Run(s, before), m, r, v, Ever(s, before, r));
      }
    }
  }

  lemma LostIsClosed(s: System, t: System, r: RepoId, v: Repo, ever: set<NodeId>)
    requires Trail(s, t.stores, r, ever) && Copies(s, t, r, v, ever)
    requires forall n :: !Has(t.stores, n, r, v)
    ensures Closed(s, r, ever)
  {
    forall n | n in ever ensures LeadsInto(s, r, n, ever) {
      assert !Has(t.stores, n, r, v);
    }
  }

  lemma LossNeedsLasso(s: System, schedule: seq<nat>, r: RepoId, v: Repo, x: NodeId)
    returns (lasso: seq<NodeId>)
    requires OnlyAt(s, r, v, x) && !Kept(s, schedule, r, v)
    ensures Lasso(s, r, x, lasso)
  {
    TrailRun(s, schedule, r, v, x);
    LostIsClosed(s, Run(s, schedule), r, v, Ever(s, schedule, r));
    lasso := Extend(s, r, x, Ever(s, schedule, r), [x]);
  }

  // ------------------------------------------------------------------ and a cycle can lose it

  /** The migration has not got to the repository yet, or is about to write it. */
  predicate OnWay(j: Migration, r: RepoId) {
    && Going(j) && j.phase != Completed && r !in j.repos[..j.pos]
    && !(j.phase == Delete && Current(j, r))
  }

  /** All copies of the repository are the same. */
  ghost predicate AllAre(stores: Stores, r: RepoId, v: Repo) {
    forall n | n in stores && r in stores[n] :: stores[n][r] == v
  }

  ghost predicate OthersSame(t: System, t': System, k: nat) {
    |t.jobs| == |t'.jobs| && forall m | 0 <= m < |t.jobs| && m != k :: t'.jobs[m] == t.jobs[m]
  }

  lemma OnWayStep(t: System, k: nat, r: RepoId, v: Repo)
    requires k < |t.jobs| && OnWay(t.jobs[k], r) && r in t.jobs[k].repos && AllAre(t.stores, r, v)
    requires t.jobs[k].source in Holders(t.stores, r) && t.jobs[k].target in t.stores
    requires !(t.jobs[k].phase.Write? && Current(t.jobs[k], r))
    ensures var t' := Step(t, k);
            && OthersSame(t, t', k) && t'.stores.Keys == t.stores.Keys
            && Holders(t'.stores, r) == Holders(t.stores, r) && AllAre(t'.stores, r, v)
            && OnWay(t'.jobs[k], r) && StepsLeft(t'.jobs[k]) < StepsLeft(t.jobs[k])
            && t'.jobs[k].source == t.jobs[k].source && t'.jobs[k].target == t.jobs[k].target
            && t'.jobs[k].repos == t.jobs[k].repos
            && (t'.jobs[k].phase.Write? && Current(t'.jobs[k], r) ==> t'.jobs[k].phase.repo == v)
  {
    var j, t' := t.jobs[k], Step(t, k);
    StepsFall(t.stores, j);
    if t'.jobs[k].pos == j.pos + 1 {
      assert j.repos[..j.pos + 1] == j.repos[..j.pos] + [j.repos[j.pos]];
    }
  }

  /** The repository is also on the target now, and its migration is about to delete it. */
  ghost predicate Written(t: System, t': System, k: nat, r: RepoId, v: Repo)
    requires k < |t.jobs|
  {
    && OthersSame(t, t', k) && t'.jobs[k].phase == Delete && Current(t'.jobs[k], r)
    && Holders(t'.stores, r) == Holders(t.stores, r) + {t.jobs[k].target} && AllAre(t'.stores, r, v)
  }

  lemma WriteStep(t: System, k: nat, r: RepoId, v: Repo)
    requires k < |t.jobs| && t.jobs[k].phase == Write(v) && Current(t.jobs[k], r)
    requires t.jobs[k].source in t.stores && t.jobs[k].target in t.stores && AllAre(t.stores, r, v)
    ensures Written(t, Step(t, k), k, r, v)
  {
  }

  /** Scheduled alone, a migration gets to the repository and copies it. */
  lemma {:induction false} Drive(s: System, before: seq<nat>, k: nat, r: RepoId, v: Repo)
    returns (schedule: seq<nat>)
    requires k < |Run(s, before).jobs|
    requires var t := Run(s, before);
             && OnWay(t.jobs[k], r) && r in t.jobs[k].repos && AllAre(t.stores, r, v)
             && t.jobs[k].source in Holders(t.stores, r) && t.jobs[k].target in t.stores
             && (t.jobs[k].phase.Write? && Current(t.jobs[k], r) ==> t.jobs[k].phase.repo == v)
    ensures Written(Run(s, before), Run(s, schedule), k, r, v)
    decreases StepsLeft(Run(s, before).jobs[k])
  {
    var t := Run(s, before);
    assert (before + [k])[..|before|] == before;
    if t.jobs[k].phase.Write? && Current(t.jobs[k], r) {
      WriteStep(t, k, r, v);
      schedule := before + [k];
    } else {
      OnWayStep(t, k, r, v);
      schedule := Drive(s, before + [k], k, r, v);
    }
  }

  // ------------------------------------------------------------- a migration for each node

  ghost predicate Mans(s: System, r: RepoId, ns: seq<NodeId>, js: seq<nat>, i: nat) {
    && i < |ns| && i < |js| && Moves(s, js[i], r)
    && s.jobs[js[i]].source == ns[i] && s.jobs[js[i]].target in Elements(ns)
    && (i + 1 < |ns| ==> s.jobs[js[i]].target == ns[i + 1])
  }

  /** One migration for every node of the lasso, from it to the next, the last one back into it. */
  ghost predicate Crew(s: System, r: RepoId, ns: seq<NodeId>, js: seq<nat>) {
    && |js| == |ns| && (forall i | 0 <= i < |js| :: js[i] < |s.jobs|)
    && forall i {:trigger Mans(s, r, ns, js, i)} | 0 <= i < |ns| :: Mans(s, r, ns, js, i)
  }

  lemma {:induction false} PickChain(s: System, r: RepoId, x: NodeId, ns: seq<NodeId>, k: nat)
    returns (js: seq<nat>)
    requires Chain(s, r, x, ns) && k < |ns|
    ensures |js| == k
    ensures forall i | 0 <= i < k :: MovesBetween(s, js[i], r, ns[i], ns[i + 1])
  {
    if k == 0 {
      js := [];
    } else {
      js := PickChain(s, r, x, ns, k - 1);
      assert Edge(s, r, ns[k - 1], ns[k]);
      var j: nat :| MovesBetween(s, j, r, ns[k - 1], ns[k]);
      js := js + [j];
    }
  }

  lemma PickCrew(s: System, r: RepoId, x: NodeId, ns: seq<NodeId>) returns (js: seq<nat>)
    requires Lasso(s, r, x, ns)
    ensures Crew(s, r, ns, js)
  {
    var n := |ns| - 1;
    var chain := PickChain(s, r, x, ns, n);
    var m :| m in ns && Edge(s, r, ns[n], m);
    var j: nat :| MovesBetween(s, j, r, ns[n], m);
    js := chain + [j];
    forall i | 0 <= i < |ns| ensures Mans(s, r, ns, js, i) && js[i] < |s.jobs| {
      if i < n {
        assert MovesBetween(s, chain[i], r, ns[i], ns[i + 1]);
      }
    }
  }

  lemma CrewDiffers(s: System, r: RepoId, ns: seq<NodeId>, js: seq<nat>, i: nat, l: nat)
    requires Crew(s, r, ns, js) && Distinct(ns) && i < |js| && l < |js| && i != l
    ensures js[i] != js[l]
  {
    assert Mans(s, r, ns, js, i) && Mans(s, r, ns, js, l);
    assert ns[i] != ns[l];
  }

  /** The migration is about to delete the repository. */
  predicate Ready(t: System, k: nat, r: RepoId) {
    k < |t.jobs| && t.jobs[k].phase == Delete && Current(t.jobs[k], r)
  }

  /** The first `i` migrations of the crew have copied the repository, the others wait; it is only on
      nodes of the lasso, and on the first `i + 1` of them. */
  ghost predicate Copied(s: System, t: System, r: RepoId, v: Repo, ns: seq<NodeId>, js: seq<nat>, i: nat)
    requires Crew(s, r, ns, js)
  {
    && SameShape(s, t)
    && (forall l | 0 <= l < i && l < |js| :: Ready(t, js[l], r))
    && (forall l | i <= l < |js| :: t.jobs[js[l]] == s.jobs[js[l]])
    && Holders(t.stores, r) <= Elements(ns) && AllAre(t.stores, r, v)
    && (forall l | 0 <= l <= i && l < |ns| :: ns[l] in Holders(t.stores, r))
  }

  lemma CopiedNext(s: System, t: System, t': System, r: RepoId, v: Repo, ns: seq<NodeId>,
                   js: seq<nat>, i: nat)
    requires Crew(s, r, ns, js) && Distinct(ns) && i < |js| && Copied(s, t, r, v, ns, js, i)
    requires SameShape(s, t') && Written(t, t', js[i], r, v)
    ensures Copied(s, t', r, v, ns, js, i + 1)
  {
    assert Mans(s, r, ns, js, i);
    forall l | 0 <= l < |js| && l != i ensures t'.jobs[js[l]] == t.jobs[js[l]] {
      CrewDiffers(s, r, ns, js, i, l);
    }
  }

  lemma CanDrive(s: System, t: System, r: RepoId, v: Repo, ns: seq<NodeId>, js: seq<nat>, i: nat)
    requires Initial(s) && Crew(s, r, ns, js) && i < |js| && Copied(s, t, r, v, ns, js, i)
    ensures js[i] < |t.jobs| && OnWay(t.jobs[js[i]], r) && r in t.jobs[js[i]].repos
    ensures t.jobs[js[i]].source in Holders(t.stores, r) && t.jobs[js[i]].target in t.stores
    ensures t.jobs[js[i]].phase == Start
  {
    assert Mans(s, r, ns, js, i);
    assert t.jobs[js[i]] == s.jobs[js[i]];
    assert s.jobs[js[i]].repos[..0] == [];
  }

  lemma {:induction false} CopyAll(s: System, before: seq<nat>, r: RepoId, v: Repo, ns: seq<NodeId>,
                                   js: seq<nat>, i: nat) returns (schedule: seq<nat>)
    requires Initial(s) && Crew(s, r, ns, js) && Distinct(ns) && i <= |js|
    requires Copied(s, Run(s, before), r, v, ns, js, i)
    ensures Copied(s, Run(s, schedule), r, v, ns, js, |js|)
    decreases |js| - i
  {
    if i == |js| {
      schedule := before;
    } else {
      CanDrive(s, Run(s, before), r, v, ns, js, i);
      var next := Drive(s, before, js[i], r, v);
      ShapeRun(s, next);
      CopiedNext(s, Run(s, before), Run(s, next), r, v, ns, js, i);
      schedule := CopyAll(s, next, r, v, ns, js, i + 1);
    }
  }

  /** The first `i` migrations of the crew have deleted the repository from their sources. */
  ghost predicate Dropped(s: System, t: System, r: RepoId, ns: seq<NodeId>, js: seq<nat>, i: nat)
    requires Crew(s, r, ns, js)
  {
    && SameShape(s, t) && (forall l | i <= l < |js| :: Ready(t, js[l], r))
    && Holders(t.stores, r) <= Elements(ns)
    && (forall l | 0 <= l < i && l < |ns| :: ns[l] !in Holders(t.stores, r))
  }

  lemma DeleteStep(t: System, k: nat, r: RepoId)
    requires Ready(t, k, r) && t.jobs[k].source in t.stores && t.jobs[k].target in t.stores
    ensures var t' := Step(t, k);
            OthersSame(t, t', k) && Holders(t'.stores, r) == Holders(t.stores, r) - {t.jobs[k].source}
  {
  }

  lemma DroppedNext(s: System, t: System, t': System, r: RepoId, ns: seq<NodeId>, js: seq<nat>, i: nat)
    requires Crew(s, r, ns, js) && Distinct(ns) && i < |js| && Dropped(s, t, r, ns, js, i)
    requires SameShape(s, t') && t' == Step(t, js[i])
    ensures Dropped(s, t', r, ns, js, i + 1)
  {
    assert Mans(s, r, ns, js, i);
    DeleteStep(t, js[i], r);
    forall l | i < l < |js| ensures Ready(t', js[l], r) {
      CrewDiffers(s, r, ns, js, i, l);
      assert Ready(t, js[l], r);
    }
  }

  lemma {:induction false} DropAll(s: System, before: seq<nat>, r: RepoId, ns: seq<NodeId>,
                                   js: seq<nat>, i: nat) returns (schedule: seq<nat>)
    requires Crew(s, r, ns, js) && Distinct(ns) && i <= |js|
    requires Dropped(s, Run(s, before), r, ns, js, i)
    ensures Dropped(s, Run(s, schedule), r, ns, js, |js|)
    decreases |js| - i
  {
    if i == |js| {
      schedule := before;
    } else {
      assert (before + [js[i]])[..|before|] == before;
      ShapeRun(s, before + [js[i]]);
      DroppedNext(s, Run(s, before), Run(s, before + [js[i]]), r, ns, js, i);
      schedule := DropAll(s, before + [js[i]], r, ns, js, i + 1);
    }
  }

  lemma StartsCopied(s: System, r: RepoId, v: Repo, x: NodeId, ns: seq<NodeId>, js: seq<nat>)
    requires OnlyAt(s, r, v, x) && Chain(s, r, x, ns) && Crew(s, r, ns, js)
    ensures Copied(s, Run(s, []), r, v, ns, js, 0)
  {
    assert Holders(s.stores, r) == {x};
  }

  lemma NoneLeft(s: System, t: System, r: RepoId, v: Repo, ns: seq<NodeId>, js: seq<nat>, n: NodeId)
    requires Crew(s, r, ns, js) && Dropped(s, t, r, ns, js, |js|)
    ensures !Has(t.stores, n, r, v)
  {
    assert n in Elements(ns) ==> n !in Holders(t.stores, r);
  }

  /** Every migration along the lasso copies the repository, and then every one deletes it. */
  lemma LassoLoses(s: System, r: RepoId, v: Repo, x: NodeId, ns: seq<NodeId>)
    returns (schedule: seq<nat>)
    requires OnlyAt(s, r, v, x) && Lasso(s, r, x, ns)
    ensures !Kept(s, schedule, r, v)
  {
    var js := PickCrew(s, r, x, ns);
    StartsCopied(s, r, v, x, ns, js);
    var copied := CopyAll(s, [], r, v, ns, js, 0);
    schedule := DropAll(s, copied, r, ns, js, 0);
    forall n ensures !Has(Run(s, schedule).stores, n, r, v) {
      NoneLeft(s, Run(s, schedule), r, v, ns, js, n);
    }
  }

  // ------------------------------------------------------------------------- the theorem

  /** A repository that begins on one node is somewhere at every moment of every interleaving, if and
      only if the migrations that list it do not lead from that node into a cycle. */
  lemma OverlapLosesIff(s: System, r: RepoId, v: Repo, x: NodeId)
    requires OnlyAt(s, r, v, x)
    ensures (forall schedule :: Kept(s, schedule, r, v)) <==> !exists ns :: Lasso(s, r, x, ns)
  {
    if ns :| Lasso(s, r, x, ns) {
      var schedule := LassoLoses(s, r, v, x, ns);
    }
    if schedule :| !Kept(s, schedule, r, v) {
      var ns := LossNeedsLasso(s, schedule, r, v, x);
    }
  }

  /** Two migrations of one repository in opposite directions can lose it. */
  lemma OppositeMigrationsLose(s: System, r: RepoId, v: Repo, x: NodeId, y: NodeId, k: nat, l: nat)
    returns (schedule: seq<nat>)
    requires OnlyAt(s, r, v, x) && MovesBetween(s, k, r, x, y) && MovesBetween(s, l, r, y, x)
    ensures !Kept(s, schedule, r, v)
  {
    var ns := if x == y then [x] else [x, y];
    assert Edge(s, r, x, y) && Edge(s, r, y, x);
    assert x in ns && Edge(s, r, ns[|ns| - 1], x);
    schedule := LassoLoses(s, r, v, x, ns);
  }
}
