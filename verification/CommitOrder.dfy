/** Rebuilding commits in dependency order: a depth-first walk over the parsed commits. */
module CommitOrder {
  import opened Basics

  type Hash = string

  datatype Commit = Commit(tree: string, parents: seq<Hash>)

  type Graph = map<Hash, Commit>

  // ----------------------------------------------------------------- the commit graph

  /** A chain of present commits, each the parent of the one before it. */
  ghost predicate Path(g: Graph, p: seq<Hash>) {
    && (forall i | 0 <= i < |p| :: p[i] in g)
    && (forall i | 0 < i < |p| :: p[i] in g[p[i - 1]].parents)
  }

  ghost predicate Descends(g: Graph, h: Hash, a: Hash) {
    exists p :: Path(g, p) && |p| >= 2 && p[0] == h && p[|p| - 1] == a
  }

  /** No commit is its own proper ancestor. Parents may be missing from the graph. */
  ghost predicate Acyclic(g: Graph) {
    forall h | h in g :: !Descends(g, h, h)
  }

  ghost function Ancestors(g: Graph, h: Hash): set<Hash> {
    set a | a in g && Descends(g, h, a)
  }

  lemma ParentDescends(g: Graph, h: Hash, q: Hash)
    requires h in g && q in g && q in g[h].parents
    ensures Descends(g, h, q)
  {
    assert Path(g, [h, q]);
  }

  lemma DescendsFurther(g: Graph, h: Hash, q: Hash, a: Hash)
    requires h in g && q in g && q in g[h].parents && Descends(g, q, a)
    ensures Descends(g, h, a)
  {
    var p :| Path(g, p) && |p| >= 2 && p[0] == q && p[|p| - 1] == a;
    assert Path(g, [h] + p);
  }

  lemma FewerAncestors(g: Graph, h: Hash, q: Hash)
    requires Acyclic(g) && h in g && q in g && q in g[h].parents
    ensures |Ancestors(g, q)| < |Ancestors(g, h)|
  {
    ParentDescends(g, h, q);
    forall a | a in Ancestors(g, q) ensures a in Ancestors(g, h) {
      DescendsFurther(g, h, q, a);
    }
    SmallerSet(Ancestors(g, q), Ancestors(g, h), q);
  }

  lemma SmallerSet<T>(a: set<T>, b: set<T>, x: T)
    requires a <= b && x in b && x !in a
    ensures |a| < |b|
  {
    assert b == a + (b - a) && x in b - a;
    assert |b - a| > 0;
  }

  // ------------------------------------------------------------------------- the order

  /** Every commit of the list is present and comes after all of its present parents. */
  ghost predicate ParentsFirst(g: Graph, s: seq<Hash>) {
    forall i | 0 <= i < |s| ::
      s[i] in g && forall q | q in g[s[i]].parents && q in g :: q in s[..i]
  }

  lemma ParentsFirstAppend(g: Graph, s: seq<Hash>, h: Hash)
    requires ParentsFirst(g, s) && h in g
    requires forall q | q in g[h].parents && q in g :: q in s
    ensures ParentsFirst(g, s + [h])
  {
    var t := s + [h];
    forall i | 0 <= i < |t|
      ensures t[i] in g && forall q | q in g[t[i]].parents && q in g :: q in t[..i]
    {
      assert t[..i] == s[..i];
    }
  }

  lemma {:induction false} PathGoesBack(g: Graph, s: seq<Hash>, p: seq<Hash>, i: nat)
    requires ParentsFirst(g, s) && Path(g, p) && p != [] && i < |s| && p[0] == s[i]
    ensures exists j | 0 <= j <= i :: s[j] == p[|p| - 1] && (|p| >= 2 ==> j < i)
    decreases |p|
  {
    if |p| >= 2 {
      assert p[1] in g[p[0]].parents;
      assert p[1] in s[..i];
      var k :| 0 <= k < i && s[k] == p[1];
      assert Path(g, p[1..]) by {
        forall m | 0 < m < |p| - 1 ensures p[1..][m] in g[p[1..][m - 1]].parents {
          assert p[m + 1] in g[p[m]].parents;
        }
      }
      PathGoesBack(g, s, p[1..], k);
    }
  }

  /** A list that holds every present commit after its parents shows that there is no cycle. */
  lemma OrderedIsAcyclic(g: Graph, s: seq<Hash>)
    requires ParentsFirst(g, s) && forall h | h in g :: h in s
    ensures Acyclic(g)
  {
    forall h | h in g ensures !Descends(g, h, h) {
      var i := FirstAt(s, h);
      if Descends(g, h, h) {
        var p :| Path(g, p) && |p| >= 2 && p[0] == h && p[|p| - 1] == h;
        PathGoesBack(g, s, p, i);
        assert false;
      }
    }
  }

  lemma {:induction false} FirstAt(s: seq<Hash>, h: Hash) returns (i: nat)
    requires h in s
    ensures i < |s| && s[i] == h && h !in s[..i]
  {
    if h in s[..|s| - 1] {
      i := FirstAt(s[..|s| - 1], h);
      assert s[..|s| - 1][..i] == s[..i];
    } else {
      i := |s| - 1;
    }
  }

  // -------------------------------------------------------------------------- the walk

  /** How a walk goes on: it would go deeper than allowed, a commit cannot be created, or it is
      done. */
  datatype Walk = Deeper | Failed(created: seq<Hash>) | Done(created: seq<Hash>)

  /** The recursion of the walk, cut off at a depth. `failing` holds the commits whose tree or govc
      commit cannot be created. */
  function Visit(g: Graph, failing: set<Hash>, h: Hash, created: seq<Hash>, depth: nat): Walk
    decreases depth, 0
  {
    if h in created || h !in g then Done(created)
    else if depth == 0 then Deeper
    else
      match VisitAll(g, failing, g[h].parents, created, depth - 1)
      case Done(c) => if h in failing then Failed(c) else Done(c + [h])
      case w => w
  }

  function VisitAll(g: Graph, failing: set<Hash>, hs: seq<Hash>, created: seq<Hash>, depth: nat):
    Walk
    decreases depth, 1, |hs|
  {
    if hs == [] then Done(created)
    else
      match VisitAll(g, failing, hs[..|hs| - 1], created, depth)
      case Done(c) => Visit(g, failing, hs[|hs| - 1], c, depth)
      case w => w
  }

  /** What a walk has created: nothing that fails, and everything after its present parents. */
  ghost predicate Proper(g: Graph, failing: set<Hash>, created: seq<Hash>) {
    ParentsFirst(g, created) && forall h | h in created :: h !in failing
  }

  lemma {:induction false} VisitOrders(g: Graph, failing: set<Hash>, h: Hash, created: seq<Hash>,
                                       depth: nat)
    requires Proper(g, failing, created)
    ensures var w := Visit(g, failing, h, created, depth);
            && (!w.Deeper? ==> created <= w.created && Proper(g, failing, w.created))
            && (w.Done? && h in g ==> h in w.created)
    decreases depth, 0
  {
    if h !in created && h in g && depth > 0 {
      VisitAllOrders(g, failing, g[h].parents, created, depth - 1);
      var w := VisitAll(g, failing, g[h].parents, created, depth - 1);
      if w.Done? {
        ParentsFirstAppend(g, w.created, h);
      }
    }
  }

  lemma {:induction false} VisitAllOrders(g: Graph, failing: set<Hash>, hs: seq<Hash>,
                                          created: seq<Hash>, depth: nat)
    requires Proper(g, failing, created)
    ensures var w := VisitAll(g, failing, hs, created, depth);
            && (!w.Deeper? ==> created <= w.created && Proper(g, failing, w.created))
            && (w.Done? ==> Covered(g, hs, w.created))
    decreases depth, 1, |hs|
  {
    if hs != [] {
      var init, last := hs[..|hs| - 1], hs[|hs| - 1];
      assert hs == init + [last];
      VisitAllOrders(g, failing, init, created, depth);
      var w := VisitAll(g, failing, init, created, depth);
      if w.Done? {
        VisitOrders(g, failing, last, w.created, depth);
      }
    }
  }

  lemma {:induction false} VisitFits(g: Graph, failing: set<Hash>, h: Hash, created: seq<Hash>,
                                     depth: nat)
    requires Acyclic(g) && (h in g ==> depth > |Ancestors(g, h)|)
    ensures var w := Visit(g, failing, h, created, depth);
            !w.Deeper? && (failing !! g.Keys ==> w.Done?)
    decreases depth, 0
  {
    if h !in created && h in g {
      forall q | q in g[h].parents && q in g ensures depth - 1 > |Ancestors(g, q)| {
        FewerAncestors(g, h, q);
      }
      VisitAllFits(g, failing, g[h].parents, created, depth - 1);
    }
  }

  lemma {:induction false} VisitAllFits(g: Graph, failing: set<Hash>, hs: seq<Hash>,
                                        created: seq<Hash>, depth: nat)
    requires Acyclic(g) && forall h | h in hs && h in g :: depth > |Ancestors(g, h)|
    ensures var w := VisitAll(g, failing, hs, created, depth);
            !w.Deeper? && (failing !! g.Keys ==> w.Done?)
    decreases depth, 1, |hs|
  {
    if hs != [] {
      VisitAllFits(g, failing, hs[..|hs| - 1], created, depth);
      var w := VisitAll(g, failing, hs[..|hs| - 1], created, depth);
      if w.Done? {
        VisitFits(g, failing, hs[|hs| - 1], w.created, depth);
      }
    }
  }

  /** The walk ends at some depth, well or not. */
  ghost predicate Ends(g: Graph, failing: set<Hash>, order: seq<Hash>) {
    exists depth: nat :: !VisitAll(g, failing, order, [], depth).Deeper?
  }

  ghost predicate Succeeds(g: Graph, failing: set<Hash>, order: seq<Hash>) {
    exists depth: nat :: VisitAll(g, failing, order, [], depth).Done?
  }

  /** Without cycles the walk ends, whatever fails and in whatever order the commits are tried. */
  lemma AcyclicWalkEnds(g: Graph, failing: set<Hash>, order: seq<Hash>)
    requires Acyclic(g)
    ensures Ends(g, failing, order) && (failing !! g.Keys ==> Succeeds(g, failing, order))
  {
    forall h | h in order && h in g ensures |g.Keys| + 1 > |Ancestors(g, h)| {
      SubsetSize(Ancestors(g, h), g.Keys);
    }
    VisitAllFits(g, failing, order, [], |g.Keys| + 1);
  }

  /** The walk creates every present commit, in whatever order the commits are tried, if and only if
      the commit graph has no cycle and no present commit fails. */
  lemma WalkSucceedsIff(g: Graph, failing: set<Hash>, order: seq<Hash>)
    requires forall h :: h in order <==> h in g
    ensures Succeeds(g, failing, order) <==> Acyclic(g) && failing !! g.Keys
  {
    if depth: nat :| VisitAll(g, failing, order, [], depth).Done? {
      VisitAllOrders(g, failing, order, [], depth);
      OrderedIsAcyclic(g, VisitAll(g, failing, order, [], depth).created);
    }
    if Acyclic(g) {
      AcyclicWalkEnds(g, failing, order);
    }
  }

  lemma {:induction false} NothingFails(g: Graph, failing: set<Hash>, h: Hash, created: seq<Hash>,
                                        depth: nat)
    requires failing !! g.Keys
    ensures !Visit(g, failing, h, created, depth).Failed?
    decreases depth, 0
  {
    if h !in created && h in g && depth > 0 {
      NothingFailsAll(g, failing, g[h].parents, created, depth - 1);
    }
  }

  lemma {:induction false} NothingFailsAll(g: Graph, failing: set<Hash>, hs: seq<Hash>,
                                           created: seq<Hash>, depth: nat)
    requires failing !! g.Keys
    ensures !VisitAll(g, failing, hs, created, depth).Failed?
    decreases depth, 1, |hs|
  {
    if hs != [] {
      NothingFailsAll(g, failing, hs[..|hs| - 1], created, depth);
      var w := VisitAll(g, failing, hs[..|hs| - 1], created, depth);
      if w.Done? {
        NothingFails(g, failing, hs[|hs| - 1], w.created, depth);
      }
    }
  }

  /** When no present commit fails, the walk ends if and only if the graph has no cycle. */
  lemma WalkEndsIff(g: Graph, failing: set<Hash>, order: seq<Hash>)
    requires (forall h :: h in order <==> h in g) && failing !! g.Keys
    ensures Ends(g, failing, order) <==> Acyclic(g)
  {
    if depth: nat :| !VisitAll(g, failing, order, [], depth).Deeper? {
      NothingFailsAll(g, failing, order, [], depth);
    }
    WalkSucceedsIff(g, failing, order);
    if Acyclic(g) {
      AcyclicWalkEnds(g, failing, order);
    }
  }

  /** Two commits that name each other as parent. */
  function Cycle(a: Hash, b: Hash): Graph {
    map[a := Commit("", [b]), b := Commit("", [a])]
  }

  /** On such a cycle the walk never ends. */
  lemma CycleNeverEnds(a: Hash, b: Hash)
    requires a != b
    ensures !Ends(Cycle(a, b), {}, [a, b])
  {
    assert Path(Cycle(a, b), [a, b, a]);
    assert Descends(Cycle(a, b), a, a);
    WalkEndsIff(Cycle(a, b), {}, [a, b]);
  }

  /** A parent that fails before the cycle is reached ends the walk on it with an error. */
  lemma FailureEndsCycle(a: Hash, b: Hash, f: Hash)
    requires a != b && a != f && b != f
    ensures var g: Graph := map[a := Commit("", [f, b]), b := Commit("", [a]), f := Commit("", [])];
            !Acyclic(g) && Ends(g, {f}, [a, b, f])
  {
    var g: Graph := map[a := Commit("", [f, b]), b := Commit("", [a]), f := Commit("", [])];
    assert Path(g, [a, b, a]);
    assert Descends(g, a, a);
    assert Visit(g, {f}, f, [], 1) == Failed([]);
    FailedFirst(g, {f}, [f, b], [], 1);
    assert Visit(g, {f}, a, [], 2) == Failed([]);
    FailedFirst(g, {f}, [a, b, f], [], 2);
  }

  /** A failure stops the walk over a list. */
  lemma {:induction false} FailedStays(g: Graph, failing: set<Hash>, hs: seq<Hash>, i: nat,
                                       before: seq<Hash>, depth: nat)
    requires i <= |hs| && VisitAll(g, failing, hs[..i], before, depth).Failed?
    ensures VisitAll(g, failing, hs, before, depth) == VisitAll(g, failing, hs[..i], before, depth)
    decreases |hs|
  {
    if i < |hs| {
      assert hs[..|hs| - 1][..i] == hs[..i];
      FailedStays(g, failing, hs[..|hs| - 1], i, before, depth);
    } else {
      assert hs[..i] == hs;
    }
  }

  lemma FailedFirst(g: Graph, failing: set<Hash>, hs: seq<Hash>, before: seq<Hash>, depth: nat)
    requires hs != [] && Visit(g, failing, hs[0], before, depth).Failed?
    ensures VisitAll(g, failing, hs, before, depth) == Visit(g, failing, hs[0], before, depth)
  {
    assert hs[..1][..0] == [];
    assert VisitAll(g, failing, hs[..1], before, depth) == Visit(g, failing, hs[0], before, depth);
    FailedStays(g, failing, hs, 1, before, depth);
  }

  // -------------------------------------------------------------- the walk as it is run

  /** The walk from `h` takes `before` to `w` at every depth from `bound` on. */
  ghost predicate Leads(g: Graph, failing: set<Hash>, h: Hash, before: seq<Hash>, w: Walk,
                        bound: nat)
  {
    forall depth: nat | depth >= bound :: Visit(g, failing, h, before, depth) == w
  }

  ghost predicate AllLead(g: Graph, failing: set<Hash>, hs: seq<Hash>, before: seq<Hash>, w: Walk,
                          bound: nat)
  {
    forall depth: nat | depth >= bound :: VisitAll(g, failing, hs, before, depth) == w
  }

  lemma AllLeadNext(g: Graph, failing: set<Hash>, hs: seq<Hash>, i: nat, before: seq<Hash>,
                    mid: seq<Hash>, w: Walk, b: nat, bound: nat)
    requires i < |hs| && AllLead(g, failing, hs[..i], before, Done(mid), bound)
    requires Leads(g, failing, hs[i], mid, w, b) && b <= bound
    ensures AllLead(g, failing, hs[..i + 1], before, w, bound)
  {
    var next := hs[..i + 1];
    assert next[..i] == hs[..i];
    forall depth: nat | depth >= bound ensures VisitAll(g, failing, next, before, depth) == w {
      assert VisitAll(g, failing, hs[..i], before, depth) == Done(mid);
      assert Visit(g, failing, hs[i], mid, depth) == w;
    }
  }

  lemma AllLeadStops(g: Graph, failing: set<Hash>, hs: seq<Hash>, i: nat, before: seq<Hash>,
                     after: seq<Hash>, bound: nat)
    requires i <= |hs| && AllLead(g, failing, hs[..i], before, Failed(after), bound)
    ensures AllLead(g, failing, hs, before, Failed(after), bound)
  {
    forall depth: nat | depth >= bound
      ensures VisitAll(g, failing, hs, before, depth) == Failed(after)
    {
      assert VisitAll(g, failing, hs[..i], before, depth) == Failed(after);
      FailedStays(g, failing, hs, i, before, depth);
    }
  }

  lemma ParentsLead(g: Graph, failing: set<Hash>, h: Hash, before: seq<Hash>, ps: Walk, w: Walk,
                    bound: nat)
    requires h in g && h !in before && bound > 0
    requires AllLead(g, failing, g[h].parents, before, ps, bound - 1)
    requires w == if ps.Done? then (if h in failing then Failed(ps.created) else Done(ps.created + [h]))
                  else ps
    ensures Leads(g, failing, h, before, w, bound)
  {
    forall depth: nat | depth >= bound ensures Visit(g, failing, h, before, depth) == w {
      assert VisitAll(g, failing, g[h].parents, before, depth - 1) == ps;
    }
  }

  function Result(ok: bool, created: seq<Hash>): Walk {
    if ok then Done(created) else Failed(created)
  }

  ghost predicate Covered(g: Graph, hs: seq<Hash>, created: seq<Hash>) {
    forall h | h in hs && h in g :: h in created
  }

  lemma CoveredNext(g: Graph, hs: seq<Hash>, i: nat, before: seq<Hash>, after: seq<Hash>)
    requires i < |hs| && Covered(g, hs[..i], before) && before <= after
    requires hs[i] in g ==> hs[i] in after
    ensures Covered(g, hs[..i + 1], after)
  {
    assert hs[..i + 1] == hs[..i] + [hs[i]];
    assert after == before + after[|before|..];
  }

  /** Everything added on the way is an ancestor of `h`. */
  ghost predicate AddsAncestors(g: Graph, h: Hash, before: seq<Hash>, after: seq<Hash>) {
    before <= after && forall x | x in after && x !in before :: Descends(g, h, x)
  }

  lemma AddsAncestorsNext(g: Graph, h: Hash, q: Hash, before: seq<Hash>, mid: seq<Hash>,
                          after: seq<Hash>)
    requires h in g && q in g[h].parents && AddsAncestors(g, h, before, mid) && mid <= after
    requires forall x | x in after && x !in mid :: x in g && (x == q || Descends(g, q, x))
    requires q !in g ==> after == mid
    ensures AddsAncestors(g, h, before, after)
  {
    forall x | x in after && x !in mid ensures Descends(g, h, x) {
      if x == q { ParentDescends(g, h, q); } else { DescendsFurther(g, h, q, x); }
    }
  }

  class CommitWalk {
    const commits: Graph
    const failing: set<Hash>
    var processed: set<Hash>
    var created: seq<Hash>

    ghost predicate Valid()
      reads this
    {
      && (forall h :: h in processed <==> h in created)
      && Proper(commits, failing, created)
      && Distinct(created)
    }

    /** A bound on the depth of the recursion below `h`. */
    ghost function Below(h: Hash): nat {
      if h in commits then |Ancestors(commits, h)| + 1 else 0
    }

    constructor (commits: Graph, failing: set<Hash>)
      ensures Valid() && created == []
      ensures this.commits == commits && this.failing == failing
    {
      this.commits, this.failing := commits, failing;
      processed, created := {}, [];
    }

    method ProcessCommit(hash: Hash) returns (ok: bool)
      requires Valid() && Acyclic(commits)
      modifies this
      ensures Valid() && old(created) <= created
      ensures forall h | h in created && h !in old(created) ::
                h in commits && (h == hash || Descends(commits, hash, h))
      ensures hash !in commits ==> created == old(created)
      ensures ok && hash in commits ==> hash in created
      ensures Leads(commits, failing, hash, old(created), Result(ok, created), Below(hash))
      ensures failing !! commits.Keys ==> ok
      decreases Below(hash), 1
    {
      if hash in processed {
        return true;
      }
      if hash !in commits {
        return true;
      }
      ok := ProcessParents(hash);
      ParentsLead(commits, failing, hash, old(created), Result(ok, created),
                  if ok && hash !in failing then Done(created + [hash]) else Failed(created),
                  Below(hash));
      if !ok || hash in failing {
        return false;
      }
      assert hash !in created;
      ParentsFirstAppend(commits, created, hash);
      created := created + [hash];
      processed := processed + {hash};
    }

    method ProcessParents(hash: Hash) returns (ok: bool)
      requires Valid() && Acyclic(commits) && hash in commits && hash !in created
      modifies this
      ensures Valid() && AddsAncestors(commits, hash, old(created), created)
      ensures ok ==> Covered(commits, commits[hash].parents, created)
      ensures AllLead(commits, failing, commits[hash].parents, old(created), Result(ok, created),
                      Below(hash) - 1)
      ensures failing !! commits.Keys ==> ok
      decreases Below(hash), 0
    {
      var parents := commits[hash].parents;
      for i := 0 to |parents|
        invariant Valid() && AddsAncestors(commits, hash, old(created), created)
        invariant Covered(commits, parents[..i], created)
        invariant AllLead(commits, failing, parents[..i], old(created), Done(created),
                          Below(hash) - 1)
      {
        var parent := parents[i];
        ghost var before := created;
        if parent in commits {
          FewerAncestors(commits, hash, parent);
        }
        ok := ProcessCommit(parent);
        AddsAncestorsNext(commits, hash, parent, old(created), before, created);
        AllLeadNext(commits, failing, parents, i, old(created), before, Result(ok, created),
                    Below(parent), Below(hash) - 1);
        if !ok {
          AllLeadStops(commits, failing, parents, i + 1, old(created), created, Below(hash) - 1);
          return false;
        }
        CoveredNext(commits, parents, i, before, created);
      }
      assert parents[..|parents|] == parents;
      ok := true;
    }

    /** Tries the commits in whatever order the map yields them. */
    method ReconstructCommits() returns (ok: bool)
      requires Valid() && Acyclic(commits) && created == []
      modifies this
      ensures Valid()
      ensures ok ==> forall h :: h in created <==> h in commits
      ensures ok <==> failing !! commits.Keys
    {
      var rest := commits.Keys;
      while rest != {}
        invariant Valid() && rest <= commits.Keys
        invariant forall h | h in commits && h !in rest :: h in created
      {
        var hash :| hash in rest;
        ok := ProcessCommit(hash);
        if !ok {
          return false;
        }
        rest := rest - {hash};
      }
      ok := true;
    }
  }
}
