/** The consistent hash ring.

    Positions on the ring are 32-bit hashes; the hash function itself is a parameter. The meaning
    of a lookup is stated by distance: a hash belongs to the point that is nearest clockwise. */
module HashRing {
  import opened Basics
  import Decimal

  const CIRCLE: int := 0x1_0000_0000

  type uint32 = x: int | 0 <= x < CIRCLE

  type NodeId = string

  // --------------------------------------------------------------- meaning of the ring

  /** How far `p` lies clockwise of `h`. */
  function Dist(h: uint32, p: uint32): uint32 {
    if h <= p then p - h else p - h + CIRCLE
  }

  ghost predicate Nearest(keys: set<uint32>, h: uint32, p: uint32) {
    p in keys && forall q | q in keys :: Dist(h, p) <= Dist(h, q)
  }

  lemma {:induction false} NearestExists(keys: set<uint32>, h: uint32)
    requires keys != {}
    ensures exists p :: Nearest(keys, h, p)
    decreases |keys|
  {
    var q :| q in keys;
    var rest := keys - {q};
    if rest == {} {
      assert keys == {q};
      assert Nearest(keys, h, q);
    } else {
      NearestExists(rest, h);
      var p :| Nearest(rest, h, p);
      assert Nearest(keys, h, if Dist(h, p) <= Dist(h, q) then p else q);
    }
  }

  ghost function Successor(keys: set<uint32>, h: uint32): (p: uint32)
    requires keys != {}
    ensures Nearest(keys, h, p)
  {
    NearestExists(keys, h);
    var p :| Nearest(keys, h, p);
    p
  }

  lemma NearestIsSuccessor(keys: set<uint32>, h: uint32, p: uint32)
    requires Nearest(keys, h, p)
    ensures keys != {} && Successor(keys, h) == p
  {
    assert Dist(h, Successor(keys, h)) == Dist(h, p);
  }

  /** The node a hash belongs to; "" on an empty ring. */
  ghost function Owner(ring: map<uint32, NodeId>, h: uint32): NodeId {
    if ring.Keys == {} then "" else ring[Successor(ring.Keys, h)]
  }

  function Label(node: NodeId, i: nat): string {
    node + ":" + Decimal.Show(i)
  }

  lemma LastColon(a: string, x: string, b: string, y: string)
    requires ':' !in x && a + [':'] + x == b + [':'] + y
    ensures |b| <= |a|
  {
    var s := a + [':'] + x;
    assert s[|b|] == ':';
    assert forall k | |a| < k < |s| :: s[k] == x[k - |a| - 1];
  }

  lemma SameTail(a: string, x: string, b: string, y: string)
    requires ':' !in x && ':' !in y && a + [':'] + x == b + [':'] + y
    ensures a == b && x == y
  {
    var s := a + [':'] + x;
    LastColon(a, x, b, y);
    LastColon(b, y, a, x);
    assert a == s[..|a|] && b == s[..|b|] && x == s[|a| + 1..] && y == s[|b| + 1..];
  }

  /** No two nodes share a label, and no node has a label twice. */
  lemma LabelsDiffer(n: NodeId, i: nat, m: NodeId, j: nat)
    ensures Label(n, i) == Label(m, j) <==> n == m && i == j
  {
    if Label(n, i) == Label(m, j) {
      assert Label(n, i) == n + [':'] + Decimal.Digits(i);
      assert Label(m, j) == m + [':'] + Decimal.Digits(j);
      SameTail(n, Decimal.Digits(i), m, Decimal.Digits(j));
      Decimal.DigitsValue(i);
      Decimal.DigitsValue(j);
    }
  }

  /** The points at which a node is placed. */
  function Points(hash: string -> uint32, node: NodeId, replicas: int): set<uint32> {
    set i: nat | i < replicas :: hash(Label(node, i))
  }

  function Added(ring: map<uint32, NodeId>, points: set<uint32>, node: NodeId): map<uint32, NodeId> {
    ring + (map p | p in points :: node)
  }

  function Removed(ring: map<uint32, NodeId>, points: set<uint32>): map<uint32, NodeId> {
    ring - points
  }

  /** Every point on the ring is one of its owner's points. */
  ghost predicate OwnPoints(hash: string -> uint32, replicas: int, ring: map<uint32, NodeId>) {
    forall p | p in ring :: p in Points(hash, ring[p], replicas)
  }

  // ---------------------------------------------------------------- minimal movement

  /** After adding a node every hash keeps its owner or goes to the new node, collisions or not. */
  lemma AddMovesOnlyToNew(ring: map<uint32, NodeId>, points: set<uint32>, node: NodeId, h: uint32)
    ensures var after := Owner(Added(ring, points, node), h);
            after == Owner(ring, h) || after == node
  {
    var ring' := Added(ring, points, node);
    if ring'.Keys != {} {
      var p := Successor(ring'.Keys, h);
      if p !in points {
        assert Nearest(ring.Keys, h, p);
        NearestIsSuccessor(ring.Keys, h, p);
      }
    }
  }

  lemma SelfOwned(ring: map<uint32, NodeId>, p: uint32)
    requires p in ring
    ensures Owner(ring, p) == ring[p]
  {
    assert Dist(p, p) == 0;
    assert Nearest(ring.Keys, p, p);
    NearestIsSuccessor(ring.Keys, p, p);
  }

  lemma SurvivingPoint(ring: map<uint32, NodeId>, points: set<uint32>, h: uint32)
    requires ring.Keys != {} && Successor(ring.Keys, h) !in points
    ensures Owner(Removed(ring, points), h) == Owner(ring, h)
  {
    var p := Successor(ring.Keys, h);
    assert Nearest(Removed(ring, points).Keys, h, p);
    NearestIsSuccessor(Removed(ring, points).Keys, h, p);
  }

  /** Once the nearest point is gone, a hash goes where that point itself goes. */
  lemma FallsThrough(ring: map<uint32, NodeId>, points: set<uint32>, h: uint32)
    requires ring.Keys != {} && Successor(ring.Keys, h) in points
    ensures Owner(Removed(ring, points), h) ==
            Owner(Removed(ring, points), Successor(ring.Keys, h))
  {
    var p := Successor(ring.Keys, h);
    var left := Removed(ring, points).Keys;
    if left != {} {
      var q := Successor(left, p);
      forall r | r in left ensures Dist(h, q) <= Dist(h, r) {
        assert q in ring.Keys && r in ring.Keys;
        assert Dist(h, r) == Dist(h, p) + Dist(p, r);
        assert Dist(h, q) == Dist(h, p) + Dist(p, q);
      }
      NearestIsSuccessor(left, h, q);
    }
  }

  /** A point that is removed although another node holds it is followed by a point of that node
      that stays; or nothing stays, and the node is the one that an empty ring answers with. */
  ghost predicate Replaced(ring: map<uint32, NodeId>, points: set<uint32>, p: uint32)
    requires p in ring
  {
    var left := ring.Keys - points;
    if left == {} then ring[p] == ""
    else ring[Successor(left, p)] == ring[p]
  }

  lemma ReplacedOwner(ring: map<uint32, NodeId>, points: set<uint32>, p: uint32)
    requires p in ring
    ensures Replaced(ring, points, p) <==> Owner(Removed(ring, points), p) == ring[p]
  {
    assert Removed(ring, points).Keys == ring.Keys - points;
  }

  /** Removing the points of a node moves only the hashes that node owned, if and only if every
      removed point that another node holds is replaced. */
  lemma RemoveMovesOnlyOwnIff(ring: map<uint32, NodeId>, points: set<uint32>, node: NodeId)
    ensures (forall h: uint32 | Owner(ring, h) != node ::
               Owner(Removed(ring, points), h) == Owner(ring, h))
            <==>
            (forall p | p in points && p in ring && ring[p] != node :: Replaced(ring, points, p))
  {
    forall p | p in points && p in ring && ring[p] != node
      ensures Owner(ring, p) == ring[p]
      ensures Replaced(ring, points, p) <==> Owner(Removed(ring, points), p) == ring[p]
    {
      SelfOwned(ring, p);
      ReplacedOwner(ring, points, p);
    }
    if forall p | p in points && p in ring && ring[p] != node :: Replaced(ring, points, p) {
      forall h: uint32 | Owner(ring, h) != node
        ensures Owner(Removed(ring, points), h) == Owner(ring, h)
      {
        if ring.Keys != {} {
          if Successor(ring.Keys, h) in points {
            FallsThrough(ring, points, h);
          } else {
            SurvivingPoint(ring, points, h);
          }
        }
      }
    }
  }

  /** A node that is removed takes the point of another with it. */
  lemma RemovalMovesAnother()
    ensures var ring: map<uint32, NodeId> := map[5 := "b", 9 := "c"];
            Owner(ring, 5) == "b" && Owner(Removed(ring, {5}), 5) == "c"
  {
    var ring: map<uint32, NodeId> := map[5 := "b", 9 := "c"];
    SelfOwned(ring, 5);
    assert Removed(ring, {5}).Keys == {9};
  }

  /** In particular when the points of the node collide with nobody else's. */
  lemma RemoveMovesOnlyOwn(ring: map<uint32, NodeId>, points: set<uint32>, node: NodeId, h: uint32)
    requires forall p | p in points && p in ring :: ring[p] == node
    requires Owner(ring, h) != node
    ensures Owner(Removed(ring, points), h) == Owner(ring, h)
  {
    RemoveMovesOnlyOwnIff(ring, points, node);
  }

  /** A removed node owns nothing any more, unless it has the name that an empty ring answers
      with. */
  lemma RemovedOwnsNothing(hash: string -> uint32, replicas: int, ring: map<uint32, NodeId>,
                           node: NodeId, h: uint32)
    requires OwnPoints(hash, replicas, ring)
    ensures var ring' := Removed(ring, Points(hash, node, replicas));
            Owner(ring', h) == node <==> node == "" && ring'.Keys == {}
  {
  }

  /** Adding a node and removing it again restores the ring, if and only if none of its points
      was taken. */
  lemma AddRemoveRestoresIff(ring: map<uint32, NodeId>, points: set<uint32>, node: NodeId)
    ensures Removed(Added(ring, points, node), points) == ring <==> points !! ring.Keys
  {
    var back := Removed(Added(ring, points, node), points);
    assert back == ring - points;
    if points !! ring.Keys {
      assert back == ring;
    } else {
      var p :| p in points && p in ring.Keys;
      assert p !in back;
    }
  }

  /** A node whose only point was taken. */
  lemma RingNotRestored()
    ensures var ring: map<uint32, NodeId> := map[5 := "b"];
            Removed(Added(ring, {5}, "n"), {5}) != ring
  {
    var ring: map<uint32, NodeId> := map[5 := "b"];
    assert 5 in ring;
    AddRemoveRestoresIff(ring, {5}, "n");
  }

  // ------------------------------------------------------------------- the sorted index

  predicate Ascending(s: seq<uint32>) {
    forall i, j | 0 <= i < j < |s| :: s[i] < s[j]
  }

  function Insert(p: uint32, s: seq<uint32>): (r: seq<uint32>)
    requires Ascending(s) && p !in s
    ensures Ascending(r) && Elements(r) == Elements(s) + {p}
  {
    if s == [] || p < s[0] then
      assert Elements([p] + s) == Elements(s) + {p};
      [p] + s
    else
      var rest := Insert(p, s[1..]);
      InsertTail(p, s, rest);
      [s[0]] + rest
  }

  lemma InsertTail(p: uint32, s: seq<uint32>, rest: seq<uint32>)
    requires Ascending(s) && s != [] && s[0] <= p && p !in s
    requires Ascending(rest) && Elements(rest) == Elements(s[1..]) + {p}
    ensures Ascending([s[0]] + rest) && Elements([s[0]] + rest) == Elements(s) + {p}
  {
    assert s == [s[0]] + s[1..];
    forall i | 0 <= i < |rest| ensures s[0] < rest[i] {
      assert rest[i] in Elements(rest);
    }
  }

  /** The sorting library call. */
  function Sorted(s: seq<uint32>): (r: seq<uint32>)
    requires Distinct(s)
    ensures Ascending(r) && Elements(r) == Elements(s)
  {
    if s == [] then []
    else
      var last := s[|s| - 1];
      var init := Sorted(s[..|s| - 1]);
      assert last !in init by { assert last in init ==> last in Elements(init); }
      assert s == s[..|s| - 1] + [last];
      Insert(last, init)
  }

  ghost predicate IndexOf(sorted: seq<uint32>, keys: set<uint32>) {
    Ascending(sorted) && Elements(sorted) == keys
  }

  /** The points in the order in which a walk from position `idx` meets them. */
  function Rotation(sorted: seq<uint32>, idx: nat): seq<uint32>
    requires idx <= |sorted|
  {
    sorted[idx..] + sorted[..idx]
  }

  /** `idx` is where the first point at or after `h` stands, or 0 if there is none. */
  predicate StartsAt(sorted: seq<uint32>, h: uint32, idx: nat) {
    && idx < |sorted|
    && (forall i | 0 <= i < idx :: sorted[i] < h)
    && (sorted[idx] >= h || (idx == 0 && sorted[|sorted| - 1] < h))
  }

  lemma WalkAt(sorted: seq<uint32>, idx: nat, k: nat)
    requires idx <= |sorted| && k < |sorted|
    ensures Rotation(sorted, idx)[k] ==
            if idx + k < |sorted| then sorted[idx + k] else sorted[idx + k - |sorted|]
  {
  }

  lemma WalkPair(sorted: seq<uint32>, h: uint32, idx: nat, i: nat, j: nat)
    requires Ascending(sorted) && StartsAt(sorted, h, idx) && i < j < |sorted|
    ensures Dist(h, Rotation(sorted, idx)[i]) < Dist(h, Rotation(sorted, idx)[j])
  {
    WalkAt(sorted, idx, i);
    WalkAt(sorted, idx, j);
    var n := |sorted|;
    assert forall k | 0 <= k < n :: sorted[k] <= sorted[n - 1];
    assert forall k | idx <= k < n :: sorted[idx] <= sorted[k];
  }

  /** A walk from there meets the points in order of their distance, each once. */
  lemma WalkByDistance(sorted: seq<uint32>, keys: set<uint32>, h: uint32, idx: nat)
    requires IndexOf(sorted, keys) && StartsAt(sorted, h, idx)
    ensures var w := Rotation(sorted, idx);
            && Elements(w) == keys
            && (forall i, j | 0 <= i < j < |w| :: Dist(h, w[i]) < Dist(h, w[j]))
  {
    var w := Rotation(sorted, idx);
    assert sorted == sorted[..idx] + sorted[idx..];
    forall i, j | 0 <= i < j < |w| ensures Dist(h, w[i]) < Dist(h, w[j]) {
      WalkPair(sorted, h, idx, i, j);
    }
  }

  lemma FirstIsOwner(sorted: seq<uint32>, ring: map<uint32, NodeId>, h: uint32, idx: nat)
    requires IndexOf(sorted, ring.Keys) && StartsAt(sorted, h, idx)
    ensures sorted[idx] in ring && ring[sorted[idx]] == Owner(ring, h)
  {
    var w := Rotation(sorted, idx);
    WalkByDistance(sorted, ring.Keys, h, idx);
    assert w[0] == sorted[idx] && w[0] in Elements(w);
    forall q | q in ring.Keys ensures Dist(h, w[0]) <= Dist(h, q) {
      var j :| 0 <= j < |w| && w[j] == q;
    }
    NearestIsSuccessor(ring.Keys, h, sorted[idx]);
  }

  // ------------------------------------------------------- the nearest distinct nodes

  function Owners(ring: map<uint32, NodeId>, walk: seq<uint32>): (r: seq<NodeId>)
    requires forall p | p in walk :: p in ring
  {
    seq(|walk|, i requires 0 <= i < |walk| => ring[walk[i]])
  }

  /** The first occurrence of each node. */
  function Firsts(s: seq<NodeId>): (d: seq<NodeId>)
    ensures forall x :: x in d <==> x in s
    ensures Distinct(d)
  {
    if s == [] then []
    else
      var d, last := Firsts(s[..|s| - 1]), s[|s| - 1];
      if last in d then d else d + [last]
  }

  lemma {:induction false} FirstsPrefix(s: seq<NodeId>, i: nat)
    requires i <= |s|
    ensures Firsts(s[..i]) <= Firsts(s)
    decreases |s|
  {
    if i < |s| {
      FirstsPrefix(s[..|s| - 1], i);
      assert s[..|s| - 1][..i] == s[..i];
    } else {
      assert s[..i] == s;
    }
  }

  /** Some point of `a` is met before every point of `b`. */
  ghost predicate Nearer(ring: map<uint32, NodeId>, h: uint32, a: NodeId, b: NodeId) {
    exists p | p in ring && ring[p] == a ::
      forall q | q in ring && ring[q] == b :: Dist(h, p) < Dist(h, q)
  }

  /** All nodes of the ring, each once, in the order in which a walk from `h` meets them. */
  ghost predicate IsPreference(ring: map<uint32, NodeId>, h: uint32, pref: seq<NodeId>) {
    && Elements(pref) == ring.Values
    && (forall i, j | 0 <= i < j < |pref| :: pref[i] != pref[j] && Nearer(ring, h, pref[i], pref[j]))
  }

  function Take<T>(s: seq<T>, count: int): seq<T> {
    if count <= 0 then [] else if count < |s| then s[..count] else s
  }

  /** Of two nodes in the list of first occurrences, the earlier one occurs before every
      occurrence of the later one. */
  lemma {:induction false} FirstsOrder(s: seq<NodeId>, i: nat, j: nat)
    requires i < j < |Firsts(s)|
    ensures exists k | 0 <= k < |s| && s[k] == Firsts(s)[i] ::
              forall l | 0 <= l < |s| && s[l] == Firsts(s)[j] :: k < l
  {
    var n := |s| - 1;
    var d := Firsts(s[..n]);
    if j < |d| {
      FirstsOrder(s[..n], i, j);
      var k :| 0 <= k < n && s[..n][k] == d[i] &&
               forall l | 0 <= l < n && s[..n][l] == d[j] :: k < l;
      assert s[k] == Firsts(s)[i];
      assert forall l | 0 <= l < n :: s[..n][l] == s[l];
    } else {
      assert d[i] in s[..n];
      var k :| 0 <= k < n && s[..n][k] == d[i];
      assert s[k] == Firsts(s)[i];
      assert forall l | 0 <= l < n :: s[l] == s[..n][l] && s[l] in s[..n];
    }
  }

  ghost function Preference(ring: map<uint32, NodeId>, sorted: seq<uint32>, idx: nat): seq<NodeId>
    requires IndexOf(sorted, ring.Keys) && idx < |sorted|
  {
    Firsts(Owners(ring, Rotation(sorted, idx)))
  }

  lemma PreferenceOrder(ring: map<uint32, NodeId>, sorted: seq<uint32>, h: uint32, idx: nat,
                        i: nat, j: nat)
    requires IndexOf(sorted, ring.Keys) && StartsAt(sorted, h, idx)
    requires i < j < |Preference(ring, sorted, idx)|
    ensures Nearer(ring, h, Preference(ring, sorted, idx)[i], Preference(ring, sorted, idx)[j])
  {
    var w, pref := Rotation(sorted, idx), Preference(ring, sorted, idx);
    var owners := Owners(ring, w);
    WalkByDistance(sorted, ring.Keys, h, idx);
    FirstsOrder(owners, i, j);
    var k :| 0 <= k < |owners| && owners[k] == pref[i] &&
             forall l | 0 <= l < |owners| && owners[l] == pref[j] :: k < l;
    forall q | q in ring && ring[q] == pref[j] ensures Dist(h, w[k]) < Dist(h, q) {
      assert q in Elements(w);
      var l :| 0 <= l < |w| && w[l] == q;
      assert owners[l] == pref[j];
    }
  }

  lemma PreferenceElements(ring: map<uint32, NodeId>, sorted: seq<uint32>, h: uint32, idx: nat)
    requires IndexOf(sorted, ring.Keys) && StartsAt(sorted, h, idx)
    ensures Elements(Preference(ring, sorted, idx)) == ring.Values
  {
    var w, pref := Rotation(sorted, idx), Preference(ring, sorted, idx);
    WalkByDistance(sorted, ring.Keys, h, idx);
    forall x | x in ring.Values ensures x in pref {
      var p :| p in ring && ring[p] == x;
      assert p in Elements(w);
      var l :| 0 <= l < |w| && w[l] == p;
      assert Owners(ring, w)[l] == x;
    }
  }

  /** The list a walk collects ranks the nodes, and the owner of the hash comes first. */
  lemma PreferenceRanks(ring: map<uint32, NodeId>, sorted: seq<uint32>, h: uint32, idx: nat)
    requires IndexOf(sorted, ring.Keys) && StartsAt(sorted, h, idx)
    ensures IsPreference(ring, h, Preference(ring, sorted, idx))
    ensures Preference(ring, sorted, idx) != []
    ensures Preference(ring, sorted, idx)[0] == Owner(ring, h)
  {
    var pref := Preference(ring, sorted, idx);
    forall i, j | 0 <= i < j < |pref| ensures Nearer(ring, h, pref[i], pref[j]) {
      PreferenceOrder(ring, sorted, h, idx, i, j);
    }
    PreferenceElements(ring, sorted, h, idx);
    FirstIsOwner(sorted, ring, h, idx);
    var owners := Owners(ring, Rotation(sorted, idx));
    FirstsPrefix(owners, 1);
    assert owners[..1] == [owners[0]];
    assert Firsts([owners[0]]) == [owners[0]];
  }

  lemma NearerIsStrict(ring: map<uint32, NodeId>, h: uint32, a: NodeId, b: NodeId)
    requires Nearer(ring, h, a, b)
    ensures !Nearer(ring, h, b, a)
  {
  }

  /** Two lists that rank the nodes agree position by position. */
  lemma {:induction false} RanksAgree(ring: map<uint32, NodeId>, h: uint32,
                                      a: seq<NodeId>, b: seq<NodeId>, i: nat)
    requires IsPreference(ring, h, a) && IsPreference(ring, h, b)
    requires i <= |a| && i <= |b|
    ensures a[..i] == b[..i]
  {
    if i > 0 {
      RanksAgree(ring, h, a, b, i - 1);
      var x, y := a[i - 1], b[i - 1];
      assert forall m | 0 <= m < i - 1 :: a[m] == a[..i - 1][m] == b[m];
      assert x in Elements(a) && y in Elements(b);
      var k :| 0 <= k < |b| && b[k] == x;
      var l :| 0 <= l < |a| && a[l] == y;
      if x != y {
        assert k >= i && l >= i;
        NearerIsStrict(ring, h, x, y);
        assert false;
      }
    }
  }

  /** There is one ranking, and it lists every node once. */
  lemma PreferenceUnique(ring: map<uint32, NodeId>, h: uint32, a: seq<NodeId>, b: seq<NodeId>)
    requires IsPreference(ring, h, a) && IsPreference(ring, h, b)
    ensures a == b && |a| == |ring.Values|
  {
    DistinctSize(a);
    DistinctSize(b);
    RanksAgree(ring, h, a, b, |a|);
    assert a[..|a|] == a && b[..|b|] == b;
  }

  /** What a lookup of several nodes answers. */
  ghost predicate Answers(ring: map<uint32, NodeId>, h: uint32, count: int, r: seq<NodeId>) {
    if ring.Keys == {} || count <= 0 then r == []
    else exists pref :: IsPreference(ring, h, pref) && r == Take(pref, count)
  }

  /** The answer has as many nodes as were asked for or as there are, and asking for more nodes
      only extends it. */
  lemma LargerCountExtends(ring: map<uint32, NodeId>, h: uint32, few: nat, a: seq<NodeId>,
                           more: nat, b: seq<NodeId>)
    requires Answers(ring, h, few, a) && Answers(ring, h, more, b) && few <= more
    ensures a <= b
    ensures |a| == if few <= |ring.Values| then few else |ring.Values|
  {
    if ring.Keys == {} {
      assert ring.Values == {};
    } else if few > 0 {
      var pa :| IsPreference(ring, h, pa) && a == Take(pa, few);
      var pb :| IsPreference(ring, h, pb) && b == Take(pb, more);
      PreferenceUnique(ring, h, pa, pb);
    }
  }

  // ------------------------------------------------------------------- the ring as an object

  class ConsistentHashRing {
    const hash: string -> uint32
    const replicas: int
    var nodes: map<uint32, NodeId>
    var sortedNodes: seq<uint32>

    ghost predicate Valid()
      reads this
    {
      IndexOf(sortedNodes, nodes.Keys) && OwnPoints(hash, replicas, nodes)
    }

    constructor (hash: string -> uint32, replicas: int)
      ensures Valid() && nodes == map[]
      ensures this.hash == hash && this.replicas == replicas
    {
      this.hash, this.replicas := hash, replicas;
      nodes, sortedNodes := map[], [];
    }

    method AddNode(nodeId: NodeId)
      requires Valid()
      modifies this
      ensures Valid()
      ensures nodes == Added(old(nodes), Points(hash, nodeId, replicas), nodeId)
      ensures forall i: nat | i < replicas ::
                var p := hash(nodeId + ":" + Decimal.Show(i));
                p in nodes && nodes[p] == nodeId
    {
      var i: nat := 0;
      while i < replicas
        invariant i == 0 || i <= replicas
        invariant nodes == Added(old(nodes), Points(hash, nodeId, i), nodeId)
      {
        nodes := nodes[hash(Label(nodeId, i)) := nodeId];
        AddedNext(old(nodes), hash, nodeId, i);
        i := i + 1;
      }
      PointsUpTo(hash, nodeId, i, replicas);
      OwnPointsKept(hash, replicas, old(nodes), nodeId);
      AddedLabels(old(nodes), hash, nodeId, replicas);
      UpdateSortedNodes();
    }

    method RemoveNode(nodeId: NodeId)
      requires Valid()
      modifies this
      ensures Valid()
      ensures nodes == Removed(old(nodes), Points(hash, nodeId, replicas))
    {
      var i: nat := 0;
      while i < replicas
        invariant i == 0 || i <= replicas
        invariant nodes == Removed(old(nodes), Points(hash, nodeId, i))
      {
        nodes := nodes - {hash(Label(nodeId, i))};
        RemovedNext(old(nodes), hash, nodeId, i);
        i := i + 1;
      }
      PointsUpTo(hash, nodeId, i, replicas);
      OwnPointsKept(hash, replicas, old(nodes), nodeId);
      UpdateSortedNodes();
    }

    /** Collects the keys in whatever order the map yields them and sorts the list. */
    method UpdateSortedNodes()
      modifies this`sortedNodes
      ensures IndexOf(sortedNodes, nodes.Keys)
    {
      var keys: seq<uint32>, rest := [], nodes.Keys;
      while rest != {}
        invariant rest <= nodes.Keys && Elements(keys) == nodes.Keys - rest
        invariant Distinct(keys)
      {
        var p :| p in rest;
        assert p !in Elements(keys);
        ElementsAppend(keys, p);
        keys, rest := keys + [p], rest - {p};
      }
      sortedNodes := Sorted(keys);
    }

    method Search(h: uint32) returns (idx: nat)
      requires Valid() && sortedNodes != []
      ensures StartsAt(sortedNodes, h, idx)
    {
      var i, j := 0, |sortedNodes|;
      while i < j
        invariant 0 <= i <= j <= |sortedNodes|
        invariant forall k | 0 <= k < i :: sortedNodes[k] < h
        invariant forall k | j <= k < |sortedNodes| :: sortedNodes[k] >= h
      {
        var mid := (i + j) / 2;
        if sortedNodes[mid] >= h {
          j := mid;
        } else {
          i := mid + 1;
        }
      }
      idx := if i == |sortedNodes| then 0 else i;
    }

    method GetNode(key: string) returns (r: NodeId)
      requires Valid()
      ensures r == Owner(nodes, hash(key))
    {
      if |sortedNodes| == 0 {
        return "";
      }
      var h := hash(key);
      var idx := Search(h);
      FirstIsOwner(sortedNodes, nodes, h, idx);
      r := nodes[sortedNodes[idx]];
    }

    method GetNodes(key: string, count: int) returns (r: seq<NodeId>)
      requires Valid()
      ensures Answers(nodes, hash(key), count, r)
      ensures r != [] ==> r[0] == Owner(nodes, hash(key))
    {
      if |sortedNodes| == 0 || count <= 0 {
        return [];
      }
      var h := hash(key);
      var idx := Search(h);
      PreferenceRanks(nodes, sortedNodes, h, idx);
      r := Collect(idx, count);
    }

    /** Walks the ring from position `idx` and keeps each node the first time it is met. */
    method Collect(idx: nat, count: int) returns (r: seq<NodeId>)
      requires Valid() && idx < |sortedNodes| && count > 0
      ensures r == Take(Preference(nodes, sortedNodes, idx), count)
    {
      ghost var owners := Owners(nodes, Rotation(sortedNodes, idx));
      r := [];
      var seen := {};
      var i := 0;
      while i < |sortedNodes| && |r| < count
        invariant 0 <= i <= |sortedNodes| && |r| <= count
        invariant r == Firsts(owners[..i]) && seen == Elements(r)
      {
        var nodeIdx := (idx + i) % |sortedNodes|;
        WalkOwner(nodes, sortedNodes, idx, i);
        var nodeId := nodes[sortedNodes[nodeIdx]];
        FirstsNext(owners, i);
        ElementsAppend(r, nodeId);
        if nodeId !in seen {
          r := r + [nodeId];
          seen := seen + {nodeId};
        }
        i := i + 1;
      }
      CollectedEnough(owners, i, count);
    }
  }

  lemma CollectedEnough(s: seq<NodeId>, i: nat, count: int)
    requires i <= |s| && |Firsts(s[..i])| <= count && count > 0
    requires i == |s| || |Firsts(s[..i])| == count
    ensures Firsts(s[..i]) == Take(Firsts(s), count)
  {
    FirstsPrefix(s, i);
    assert i == |s| ==> s[..i] == s;
  }

  lemma WrapOnce(a: nat, n: nat)
    requires a < 2 * n
    ensures a % n == if a < n then a else a - n
  {
    var q, r := a / n, a % n;
    assert a == n * q + r;
    assert q == 0 || q == 1;
  }

  lemma WalkOwner(ring: map<uint32, NodeId>, sorted: seq<uint32>, idx: nat, i: nat)
    requires IndexOf(sorted, ring.Keys) && idx < |sorted| && i < |sorted|
    ensures sorted[(idx + i) % |sorted|] in ring
    ensures Owners(ring, Rotation(sorted, idx))[i] == ring[sorted[(idx + i) % |sorted|]]
  {
    var n := |sorted|;
    WrapOnce(idx + i, n);
    WalkAt(sorted, idx, i);
    assert sorted[(idx + i) % n] in Elements(sorted);
  }

  lemma FirstsNext(s: seq<NodeId>, i: nat)
    requires i < |s|
    ensures var d := Firsts(s[..i]);
            Firsts(s[..i + 1]) == if s[i] in d then d else d + [s[i]]
  {
    assert s[..i + 1][..i] == s[..i];
  }

  lemma ElementsAppend<T>(s: seq<T>, x: T)
    ensures Elements(s + [x]) == Elements(s) + {x}
  {
  }

  lemma AddedNext(ring: map<uint32, NodeId>, hash: string -> uint32, node: NodeId, i: nat)
    ensures Added(ring, Points(hash, node, i + 1), node) ==
            Added(ring, Points(hash, node, i), node)[hash(Label(node, i)) := node]
  {
    PointsNext(hash, node, i);
  }

  lemma AddedLabels(ring: map<uint32, NodeId>, hash: string -> uint32, node: NodeId, replicas: int)
    ensures var ring' := Added(ring, Points(hash, node, replicas), node);
            forall i: nat | i < replicas ::
              var p := hash(node + ":" + Decimal.Show(i));
              p in ring' && ring'[p] == node
  {
    forall i: nat | i < replicas
      ensures hash(node + ":" + Decimal.Show(i)) in Points(hash, node, replicas)
    {
      assert node + ":" + Decimal.Show(i) == Label(node, i);
    }
  }

  lemma RemovedNext(ring: map<uint32, NodeId>, hash: string -> uint32, node: NodeId, i: nat)
    ensures Removed(ring, Points(hash, node, i + 1)) ==
            Removed(ring, Points(hash, node, i)) - {hash(Label(node, i))}
  {
    PointsNext(hash, node, i);
  }

  lemma OwnPointsKept(hash: string -> uint32, replicas: int, ring: map<uint32, NodeId>,
                      node: NodeId)
    requires OwnPoints(hash, replicas, ring)
    ensures OwnPoints(hash, replicas, Added(ring, Points(hash, node, replicas), node))
    ensures OwnPoints(hash, replicas, Removed(ring, Points(hash, node, replicas)))
  {
  }

  lemma PointsNext(hash: string -> uint32, node: NodeId, i: nat)
    ensures Points(hash, node, i + 1) == Points(hash, node, i) + {hash(Label(node, i))}
  {
    forall p | p in Points(hash, node, i + 1)
      ensures p in Points(hash, node, i) + {hash(Label(node, i))}
    {
      var k: nat :| k < i + 1 && p == hash(Label(node, k));
      assert k < i ==> p in Points(hash, node, i);
    }
  }

  lemma PointsUpTo(hash: string -> uint32, node: NodeId, i: nat, replicas: int)
    requires (i == 0 && replicas <= 0) || i == replicas
    ensures Points(hash, node, i) == Points(hash, node, replicas)
  {
  }
}
