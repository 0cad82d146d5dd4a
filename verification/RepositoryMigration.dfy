/** Moving the repositories of shards between nodes, several migrations at a time.

    Each access to a node's repository map is one atomic step under that node's lock, so a
    migration is a little program whose steps interleave with those of the others. */
module RepositoryMigration {

  type NodeId = string
  type RepoId = string

  /** A reference to a repository object. */
  datatype Repo = Repo(handle: nat)

  type Stores = map<NodeId, map<RepoId, Repo>>

  datatype Phase =
    | Start
    | Look                     // about to read the next repository from the source
    | Write(repo: Repo)        // read it; about to add it to the target
    | Delete                   // added it; about to delete it from the source
    | Completed
    | Failed

  datatype Migration =
    Migration(source: NodeId, target: NodeId, repos: seq<RepoId>, pos: nat, phase: Phase)

  datatype System = System(stores: Stores, jobs: seq<Migration>)

  predicate Initial(s: System) {
    forall k | 0 <= k < |s.jobs| :: s.jobs[k].phase == Start && s.jobs[k].pos == 0
  }

  predicate Current(j: Migration, r: RepoId) {
    j.pos < |j.repos| && j.repos[j.pos] == r
  }

  /** One atomic step of one migration. */
  function Advance(stores: Stores, j: Migration): (Stores, Migration) {
    if j.source !in stores || j.target !in stores then
      (stores, if j.phase == Start then j.(phase := Failed) else j)
    else
      match j.phase
      case Start => (stores, j.(phase := Look))
      case Look =>
        if j.pos >= |j.repos| then (stores, j.(phase := Completed))
        else if j.repos[j.pos] in stores[j.source]
        then (stores, j.(phase := Write(stores[j.source][j.repos[j.pos]])))
        else (stores, j.(pos := j.pos + 1))
      case Write(repo) =>
        if j.pos >= |j.repos| then (stores, j)
        else (stores[j.target := stores[j.target][j.repos[j.pos] := repo]], j.(phase := Delete))
      case Delete =>
        if j.pos >= |j.repos| then (stores, j)
        else (stores[j.source := stores[j.source] - {j.repos[j.pos]}],
              j.(phase := Look, pos := j.pos + 1))
      case Completed => (stores, j)
      case Failed => (stores, j)
  }

  function Step(s: System, k: nat): System {
    if k >= |s.jobs| then s
    else
      var (stores, j) := Advance(s.stores, s.jobs[k]);
      System(stores, s.jobs[k := j])
  }

  /** A schedule says whose step comes next. */
  function Run(s: System, schedule: seq<nat>): System {
    if schedule == [] then s
    else Step(Run(s, schedule[..|schedule| - 1]), schedule[|schedule| - 1])
  }

  // ----------------------------------------------------------------- one repository

  predicate Has(stores: Stores, n: NodeId, r: RepoId, v: Repo) {
    n in stores && r in stores[n] && stores[n][r] == v
  }

  predicate Lacks(stores: Stores, n: NodeId, r: RepoId) {
    n in stores && r !in stores[n]
  }

  predicate Passed(j: Migration, r: RepoId) {
    exists i | 0 <= i < j.pos && i < |j.repos| :: j.repos[i] == r
  }

  /** Where the repository `r`, which began on the source of `j` as `v`, is now. */
  predicate Tracks(stores: Stores, j: Migration, r: RepoId, v: Repo) {
    && j.source in stores
    && (j.target in stores || ((j.phase == Start || j.phase == Failed) && j.pos == 0))
    && (j.phase == Failed ==> j.target !in stores)
    && (j.phase == Completed ==> j.pos >= |j.repos|)
    && (j.phase == Start ==> j.pos == 0)
    && (j.phase.Write? && Current(j, r) ==> !Passed(j, r) && j.phase.repo == v)
    && (j.phase == Delete && Current(j, r) ==> !Passed(j, r) && Has(stores, j.target, r, v))
    && (if Passed(j, r)
        then Lacks(stores, j.source, r) && (j.source != j.target ==> Has(stores, j.target, r, v))
        else Has(stores, j.source, r, v))
  }

  lemma OwnStep(stores: Stores, j: Migration, r: RepoId, v: Repo)
    requires Tracks(stores, j, r, v)
    ensures var (stores', j') := Advance(stores, j);
            Tracks(stores', j', r, v)
  {
    var (stores', j') := Advance(stores, j);
    assert Passed(j, r) ==> Passed(j', r);
    if j'.pos == j.pos + 1 {
      assert Passed(j', r) <==> Passed(j, r) || Current(j, r) by {
        if Current(j, r) { assert j.repos[j.pos] == r; }
      }
    }
  }

  /** A step of a migration leaves every repository that is not in its list where it is. */
  lemma ForeignRepo(stores: Stores, j: Migration, n: NodeId, r: RepoId)
    requires r !in j.repos
    ensures var stores' := Advance(stores, j).0;
            && (n in stores <==> n in stores')
            && (n in stores ==> (r in stores[n] <==> r in stores'[n]))
            && (n in stores && r in stores[n] ==> stores[n][r] == stores'[n][r])
  {
  }

  // ------------------------------------------------------------------- whole runs

  predicate DisjointLists(jobs: seq<Migration>) {
    forall k, m | 0 <= k < |jobs| && 0 <= m < |jobs| && k != m ::
      forall r | r in jobs[k].repos :: r !in jobs[m].repos
  }

  /** The fixed part of a migration does not change. */
  lemma {:induction false} SameLists(s: System, schedule: seq<nat>)
    ensures |Run(s, schedule).jobs| == |s.jobs|
    ensures forall k | 0 <= k < |s.jobs| ::
              var j := Run(s, schedule).jobs[k];
              j.source == s.jobs[k].source && j.target == s.jobs[k].target
              && j.repos == s.jobs[k].repos
  {
    if schedule != [] {
      SameLists(s, schedule[..|schedule| - 1]);
    }
  }

  lemma {:induction false} TracksRun(s: System, schedule: seq<nat>, k: nat, r: RepoId, v: Repo)
    requires Initial(s) && DisjointLists(s.jobs) && k < |s.jobs|
    requires r in s.jobs[k].repos && Has(s.stores, s.jobs[k].source, r, v)
    ensures |Run(s, schedule).jobs| == |s.jobs|
    ensures Tracks(Run(s, schedule).stores, Run(s, schedule).jobs[k], r, v)
  {
    if schedule == [] {
      assert !Passed(s.jobs[k], r);
    } else {
      var before, m := schedule[..|schedule| - 1], schedule[|schedule| - 1];
      var t := Run(s, before);
      TracksRun(s, before, k, r, v);
      SameLists(s, before);
      if m == k {
        OwnStep(t.stores, t.jobs[k], r, v);
      } else if m < |t.jobs| {
        assert r !in t.jobs[m].repos;
        ForeignRepo(t.stores, t.jobs[m], t.jobs[k].source, r);
        ForeignRepo(t.stores, t.jobs[m], t.jobs[k].target, r);
      }
    }
  }

  lemma AllPassed(j: Migration, r: RepoId)
    requires r in j.repos && j.pos >= |j.repos|
    ensures Passed(j, r)
  {
  }

  /** At every moment of every interleaving, a repository that began on the source of its
      migration is on the source or on the target, unchanged. */
  lemma NothingLost(s: System, schedule: seq<nat>, k: nat, r: RepoId, v: Repo)
    requires Initial(s) && DisjointLists(s.jobs) && k < |s.jobs|
    requires r in s.jobs[k].repos && Has(s.stores, s.jobs[k].source, r, v)
    requires s.jobs[k].source != s.jobs[k].target
    ensures var t := Run(s, schedule);
            || Has(t.stores, s.jobs[k].source, r, v)
            || Has(t.stores, s.jobs[k].target, r, v)
  {
    TracksRun(s, schedule, k, r, v);
    SameLists(s, schedule);
  }

  /** When the migration is complete the repository is off the source, and it is on the target if
      and only if that is another node. */
  lemma CompletedIff(s: System, schedule: seq<nat>, k: nat, r: RepoId, v: Repo)
    requires Initial(s) && DisjointLists(s.jobs) && k < |s.jobs|
    requires r in s.jobs[k].repos && Has(s.stores, s.jobs[k].source, r, v)
    requires |Run(s, schedule).jobs| == |s.jobs| && Run(s, schedule).jobs[k].phase == Completed
    ensures var t := Run(s, schedule);
            && Lacks(t.stores, s.jobs[k].source, r)
            && (Has(t.stores, s.jobs[k].target, r, v) <==> s.jobs[k].source != s.jobs[k].target)
  {
    TracksRun(s, schedule, k, r, v);
    SameLists(s, schedule);
    AllPassed(Run(s, schedule).jobs[k], r);
  }

  /** A migration that is under way, and how many steps it has left at most. */
  predicate Going(j: Migration) {
    && j.phase != Failed && j.pos <= |j.repos|
    && (j.phase.Write? || j.phase == Delete ==> j.pos < |j.repos|)
  }

  function StepsLeft(j: Migration): nat
    requires Going(j)
  {
    match j.phase
    case Start => 4 * (|j.repos| - j.pos) + 2
    case Look => 4 * (|j.repos| - j.pos) + 1
    case Write(_) => 4 * (|j.repos| - j.pos)
    case Delete => 4 * (|j.repos| - j.pos) - 1
    case Completed => 0
  }

  lemma StepsFall(stores: Stores, j: Migration)
    requires Going(j) && j.source in stores && j.target in stores && j.phase != Completed
    ensures var j' := Advance(stores, j).1;
            Going(j') && StepsLeft(j') < StepsLeft(j)
  {
  }

  lemma {:induction false} SameNodes(s: System, schedule: seq<nat>)
    ensures Run(s, schedule).stores.Keys == s.stores.Keys
  {
    if schedule != [] {
      SameNodes(s, schedule[..|schedule| - 1]);
    }
  }

  /** In every run a migration has started if and only if it was ever scheduled, and it has failed if
      and only if it has started and one of its nodes is unknown. */
  lemma {:induction false} FailsIff(s: System, schedule: seq<nat>, k: nat)
    requires Initial(s) && k < |s.jobs|
    ensures |Run(s, schedule).jobs| == |s.jobs|
    ensures Run(s, schedule).jobs[k].phase != Start <==> k in schedule
    ensures Run(s, schedule).jobs[k].phase == Failed <==>
            k in schedule && !(s.jobs[k].source in s.stores && s.jobs[k].target in s.stores)
  {
    if schedule != [] {
      var before, next := schedule[..|schedule| - 1], schedule[|schedule| - 1];
      assert schedule == before + [next];
      FailsIff(s, before, k);
      SameLists(s, before);
      SameNodes(s, before);
    }
  }

  /** A migration between known nodes completes when it is scheduled often enough. */
  lemma {:induction false} Completes(s: System, k: nat, before: seq<nat>) returns (schedule: seq<nat>)
    requires k < |s.jobs| && s.jobs[k].source in s.stores && s.jobs[k].target in s.stores
    requires |Run(s, before).jobs| == |s.jobs| && Going(Run(s, before).jobs[k])
    ensures |Run(s, schedule).jobs| == |s.jobs| && Run(s, schedule).jobs[k].phase == Completed
    decreases StepsLeft(Run(s, before).jobs[k])
  {
    var t := Run(s, before);
    if t.jobs[k].phase == Completed {
      schedule := before;
    } else {
      SameLists(s, before);
      SameNodes(s, before);
      StepsFall(t.stores, t.jobs[k]);
      assert (before + [k])[..|before|] == before;
      schedule := Completes(s, k, before + [k]);
    }
  }

  /** A migration from a node to itself completes without the repository. */
  lemma SelfMigrationLoses(s: System, k: nat, r: RepoId, v: Repo) returns (schedule: seq<nat>)
    requires Initial(s) && DisjointLists(s.jobs) && k < |s.jobs|
    requires r in s.jobs[k].repos && Has(s.stores, s.jobs[k].source, r, v)
    requires s.jobs[k].source == s.jobs[k].target
    ensures |Run(s, schedule).jobs| == |s.jobs| && Run(s, schedule).jobs[k].phase == Completed
    ensures Lacks(Run(s, schedule).stores, s.jobs[k].source, r)
  {
    schedule := Completes(s, k, []);
    CompletedIff(s, schedule, k, r, v);
  }

  /** The repository is on the source or on the target at every moment of every interleaving, if and
      only if these are different nodes. */
  lemma NothingLostIff(s: System, k: nat, r: RepoId, v: Repo)
    requires Initial(s) && DisjointLists(s.jobs) && k < |s.jobs|
    requires r in s.jobs[k].repos && Has(s.stores, s.jobs[k].source, r, v)
    ensures (forall schedule ::
               || Has(Run(s, schedule).stores, s.jobs[k].source, r, v)
               || Has(Run(s, schedule).stores, s.jobs[k].target, r, v))
            <==> s.jobs[k].source != s.jobs[k].target
  {
    if s.jobs[k].source != s.jobs[k].target {
      forall schedule
        ensures || Has(Run(s, schedule).stores, s.jobs[k].source, r, v)
                || Has(Run(s, schedule).stores, s.jobs[k].target, r, v)
      {
        NothingLost(s, schedule, k, r, v);
      }
    } else {
      var schedule := SelfMigrationLoses(s, k, r, v);
    }
  }

  /** A migration fails only when one of its nodes is unknown, and then it has moved nothing. */
  lemma FailedMovesNothing(s: System, schedule: seq<nat>, k: nat, r: RepoId, v: Repo)
    requires Initial(s) && DisjointLists(s.jobs) && k < |s.jobs|
    requires r in s.jobs[k].repos && Has(s.stores, s.jobs[k].source, r, v)
    requires |Run(s, schedule).jobs| == |s.jobs| && Run(s, schedule).jobs[k].phase == Failed
    ensures s.jobs[k].target !in Run(s, schedule).stores
    ensures Has(Run(s, schedule).stores, s.jobs[k].source, r, v)
  {
    TracksRun(s, schedule, k, r, v);
    SameLists(s, schedule);
  }

  /** A repository in nobody's list stays on exactly the nodes it was on. */
  lemma {:induction false} BystanderStays(s: System, schedule: seq<nat>, n: NodeId, r: RepoId,
                                          v: Repo)
    requires forall k | 0 <= k < |s.jobs| :: r !in s.jobs[k].repos
    ensures Has(Run(s, schedule).stores, n, r, v) <==> Has(s.stores, n, r, v)
  {
    if schedule != [] {
      var before, m := schedule[..|schedule| - 1], schedule[|schedule| - 1];
      BystanderStays(s, before, n, r, v);
      SameLists(s, before);
      var t := Run(s, before);
      if m < |t.jobs| {
        ForeignRepo(t.stores, t.jobs[m], n, r);
      }
    }
  }
}
