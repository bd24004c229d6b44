/**
 Disjoint sets over account ids, with path compression and union by rank.

 The reference is a log of unions: two accounts belong together exactly when a walk of logged unions,
 taken in either direction, leads from one to the other. The class is proved against that reading.
 */
module UnionFinds {
  import opened Accounts
  import opened Collections

  type Pair = (Node, Node)

  // ---------- the reference: connectivity over a log of unions ----------

  ghost predicate Linked(log: seq<Pair>, a: Node, b: Node) {
    (a, b) in log || (b, a) in log
  }

  ghost predicate Walk(log: seq<Pair>, p: seq<Node>) {
    |p| > 0 && forall i :: 0 <= i < |p| - 1 ==> Linked(log, p[i], p[i + 1])
  }

  ghost predicate WalkBetween(log: seq<Pair>, p: seq<Node>, a: Node, b: Node) {
    Walk(log, p) && p[0] == a && p[|p| - 1] == b
  }

  ghost predicate Connected(log: seq<Pair>, a: Node, b: Node) {
    exists p :: WalkBetween(log, p, a, b)
  }

  function Endpoints(log: seq<Pair>): set<Node> {
    (set e | e in log :: e.0) + (set e | e in log :: e.1)
  }

  /** Everyone a walk of unions leads to from `x`, which always includes `x` itself. */
  ghost function Component(log: seq<Pair>, x: Node): set<Node> {
    {x} + set y | y in Endpoints(log) && Connected(log, x, y)
  }

  lemma ConnectedReflexive(log: seq<Pair>, a: Node)
    ensures Connected(log, a, a)
  {
    assert WalkBetween(log, [a], a, a);
  }

  lemma ConnectedByLink(log: seq<Pair>, a: Node, b: Node)
    requires Linked(log, a, b)
    ensures Connected(log, a, b)
  {
    assert WalkBetween(log, [a, b], a, b);
  }

  lemma ConnectedSymmetric(log: seq<Pair>, a: Node, b: Node)
    requires Connected(log, a, b)
    ensures Connected(log, b, a)
  {
    var p :| WalkBetween(log, p, a, b);
    var q := seq(|p|, i requires 0 <= i < |p| => p[|p| - 1 - i]);
    forall i | 0 <= i < |q| - 1 ensures Linked(log, q[i], q[i + 1]) {
      assert Linked(log, p[|p| - 2 - i], p[|p| - 2 - i + 1]);
    }
    assert WalkBetween(log, q, b, a);
  }

  lemma ConnectedTransitive(log: seq<Pair>, a: Node, b: Node, c: Node)
    requires Connected(log, a, b) && Connected(log, b, c)
    ensures Connected(log, a, c)
  {
    var p :| WalkBetween(log, p, a, b);
    var q :| WalkBetween(log, q, b, c);
    var r := p + q[1..];
    forall i | 0 <= i < |r| - 1 ensures Linked(log, r[i], r[i + 1]) {
      if i < |p| - 1 {
        assert Linked(log, p[i], p[i + 1]);
      } else {
        assert Linked(log, q[i - |p| + 1], q[i - |p| + 2]);
      }
    }
    assert WalkBetween(log, r, a, c);
  }

  lemma ConnectedMonotone(log: seq<Pair>, more: seq<Pair>, a: Node, b: Node)
    requires Connected(log, a, b)
    ensures Connected(log + more, a, b)
  {
    var p :| WalkBetween(log, p, a, b);
    forall i | 0 <= i < |p| - 1 ensures Linked(log + more, p[i], p[i + 1]) {
      assert Linked(log, p[i], p[i + 1]);
    }
    assert WalkBetween(log + more, p, a, b);
  }

  /** Whoever is connected to `a` is `a`, or took part in some logged union. */
  lemma ConnectedEndpoints(log: seq<Pair>, a: Node, b: Node)
    requires Connected(log, a, b)
    ensures b == a || b in Endpoints(log)
  {
    var p :| WalkBetween(log, p, a, b);
    if |p| > 1 {
      assert Linked(log, p[|p| - 2], p[|p| - 2 + 1]);
    }
  }

  // ---------- the forest the class stores ----------

  function Pow2(n: nat): (r: nat)
    ensures r > n
  {
    if n == 0 then 1 else 2 * Pow2(n - 1)
  }

  lemma {:induction false} Pow2Monotone(a: nat, b: nat)
    requires a <= b
    ensures Pow2(a) <= Pow2(b)
    decreases b
  {
    if a < b {
      Pow2Monotone(a, b - 1);
    }
  }

  function ClassOf(rootOf: map<Node, Node>, r: Node): set<Node> {
    set x | x in rootOf && rootOf[x] == r
  }

  /** The nodes ranked above `x`: what climbing from `x` can still meet. */
  function Above(rank: map<Node, nat>, x: Node): set<Node>
    requires x in rank
  {
    set y | y in rank && rank[y] > rank[x]
  }

  lemma AboveShrinks(rank: map<Node, nat>, x: Node, y: Node)
    requires x in rank && y in rank && rank[x] < rank[y]
    ensures Above(rank, y) < Above(rank, x)
  {
    assert y in Above(rank, x) && y !in Above(rank, y);
  }

  /** The three maps the class stores, and the partition they stand for: the root of every node. */
  datatype Trees = Trees(parent: map<Node, Node>, rank: map<Node, nat>, size: map<Node, nat>, rootOf: map<Node, Node>)

  /** The parent link of `x` stays in its class and climbs strictly in rank, and so does its root. */
  ghost predicate Placed(t: Trees, x: Node) {
    && x in t.parent && x in t.rank && x in t.rootOf
    && t.parent[x] in t.rank && t.parent[x] in t.rootOf && t.rootOf[x] in t.rank && t.rootOf[x] in t.rootOf
    && t.rootOf[t.rootOf[x]] == t.rootOf[x] == t.rootOf[t.parent[x]]
    && (t.parent[x] == x <==> t.rootOf[x] == x)
    && (t.parent[x] != x ==> t.rank[x] < t.rank[t.parent[x]])
    && (t.rootOf[x] != x ==> t.rank[x] < t.rank[t.rootOf[x]])
  }

  /** The size kept at a root counts its class, which is at least two to the rank. */
  ghost predicate Weighed(t: Trees, r: Node) {
    r in t.size && r in t.rank && t.size[r] == |ClassOf(t.rootOf, r)| && Pow2(t.rank[r]) <= t.size[r]
  }

  ghost predicate Forest(t: Trees) {
    && t.parent.Keys == t.rank.Keys == t.size.Keys == t.rootOf.Keys
    && (forall x {:trigger Placed(t, x)} :: x in t.parent ==> Placed(t, x))
    && (forall r {:trigger Weighed(t, r)} :: r in t.parent && t.rootOf[r] == r ==> Weighed(t, r))
  }

  ghost predicate ReachesRoot(rootOf: map<Node, Node>, log: seq<Pair>, x: Node) {
    x in rootOf && Connected(log, x, rootOf[x])
  }

  /** `rootOf` is the partition into connected components of the log. */
  ghost predicate Represents(rootOf: map<Node, Node>, log: seq<Pair>) {
    && (forall e {:trigger e in log} :: e in log ==> e.0 in rootOf && e.1 in rootOf && rootOf[e.0] == rootOf[e.1])
    && (forall x {:trigger ReachesRoot(rootOf, log, x)} :: x in rootOf ==> ReachesRoot(rootOf, log, x))
  }

  /** The path `p` follows parent links, each one to a different node. */
  ghost predicate ParentPath(parent: map<Node, Node>, p: seq<Node>) {
    && |p| > 0
    && (forall i :: 0 <= i < |p| ==> p[i] in parent)
    && (forall i :: 0 <= i < |p| - 1 ==> p[i] != p[i + 1] && parent[p[i]] == p[i + 1])
  }

  lemma {:induction false} RootsFollowWalks(rootOf: map<Node, Node>, log: seq<Pair>, p: seq<Node>)
    requires Represents(rootOf, log) && Walk(log, p) && p[0] in rootOf
    ensures p[|p| - 1] in rootOf && rootOf[p[|p| - 1]] == rootOf[p[0]]
    decreases |p|
  {
    if |p| > 1 {
      var front := p[..|p| - 1];
      forall i | 0 <= i < |front| - 1 ensures Linked(log, front[i], front[i + 1]) {
        assert Linked(log, p[i], p[i + 1]);
      }
      RootsFollowWalks(rootOf, log, front);
      assert Linked(log, p[|p| - 2], p[|p| - 2 + 1]);
    }
  }

  /** Sharing a root is the same as being connected by the unions so far. */
  lemma SameRootIffConnected(rootOf: map<Node, Node>, log: seq<Pair>, x: Node, y: Node)
    requires Represents(rootOf, log) && x in rootOf && y in rootOf
    ensures rootOf[x] == rootOf[y] <==> Connected(log, x, y)
  {
    assert ReachesRoot(rootOf, log, x) && ReachesRoot(rootOf, log, y);
    if rootOf[x] == rootOf[y] {
      ConnectedSymmetric(log, y, rootOf[y]);
      ConnectedTransitive(log, x, rootOf[x], y);
    }
    if Connected(log, x, y) {
      var p :| WalkBetween(log, p, x, y);
      RootsFollowWalks(rootOf, log, p);
    }
  }

  /** The class stored under a root is the reference component. */
  lemma ClassIsComponent(rootOf: map<Node, Node>, log: seq<Pair>, x: Node)
    requires Represents(rootOf, log) && x in rootOf
    ensures ClassOf(rootOf, rootOf[x]) == Component(log, x)
  {
    forall y ensures y in ClassOf(rootOf, rootOf[x]) <==> y in Component(log, x) {
      if y in ClassOf(rootOf, rootOf[x]) {
        SameRootIffConnected(rootOf, log, x, y);
        ConnectedEndpoints(log, x, y);
      }
      if y in Component(log, x) && y != x {
        SameRootIffConnected(rootOf, log, x, y);
      }
    }
  }

  /** A node nobody united with anyone is alone. */
  lemma StrangerIsAlone(rootOf: map<Node, Node>, log: seq<Pair>, x: Node)
    requires Represents(rootOf, log) && x !in rootOf
    ensures Component(log, x) == {x}
  {
    forall y | Connected(log, x, y) ensures y == x {
      ConnectedSymmetric(log, x, y);
      ConnectedEndpoints(log, y, x);
    }
  }

  /** Rank grows by at least one along every parent link. */
  lemma {:induction false} RankClimbs(t: Trees, p: seq<Node>)
    requires Forest(t) && ParentPath(t.parent, p)
    ensures t.rank[p[|p| - 1]] - t.rank[p[0]] >= |p| - 1
    ensures t.rootOf[p[|p| - 1]] == t.rootOf[p[0]]
    decreases |p|
  {
    if |p| > 1 {
      assert p[|p| - 2] != p[|p| - 2 + 1];
      assert Placed(t, p[|p| - 2]);
      RankClimbs(t, p[..|p| - 1]);
    }
  }

  /** However compressed or not, no chain of parent links is longer than the logarithm of its class. */
  lemma PathsAreLogarithmic(t: Trees, p: seq<Node>)
    requires Forest(t) && ParentPath(t.parent, p)
    ensures Pow2(|p| - 1) <= |ClassOf(t.rootOf, t.rootOf[p[0]])| <= |t.parent|
  {
    RankClimbs(t, p);
    var last := p[|p| - 1];
    assert Placed(t, last);
    var r := t.rootOf[last];
    assert Weighed(t, r);
    Pow2Monotone(|p| - 1, t.rank[last]);
    Pow2Monotone(t.rank[last], t.rank[r]);
    SubsetSize(ClassOf(t.rootOf, r), t.parent.Keys);
  }

  // ---------- what each update does to the forest ----------

  /** A node seen for the first time, as a root of its own. */
  function Created(t: Trees, x: Node): Trees {
    Trees(t.parent[x := x], t.rank[x := 0], t.size[x := 1], t.rootOf[x := x])
  }

  lemma CreateKeepsForest(t: Trees, x: Node)
    requires Forest(t) && x !in t.parent
    ensures Forest(Created(t, x))
  {
    var t' := Created(t, x);
    forall y {:trigger Placed(t', y)} | y in t'.parent ensures Placed(t', y) {
      assert y != x ==> Placed(t, y);
    }
    forall r {:trigger Weighed(t', r)} | r in t'.parent && t'.rootOf[r] == r ensures Weighed(t', r) {
      CreateWeighs(t, x, r);
    }
  }

  lemma CreateWeighs(t: Trees, x: Node, r: Node)
    requires Forest(t) && x !in t.parent
    requires r == x || (r in t.parent && t.rootOf[r] == r)
    ensures Weighed(Created(t, x), r)
  {
    var rootOf' := t.rootOf[x := x];
    if r == x {
      forall y | y in t.rootOf ensures t.rootOf[y] != x {
        assert Placed(t, y);
      }
      assert ClassOf(rootOf', x) == {x};
    } else {
      assert Weighed(t, r);
      assert ClassOf(rootOf', r) == ClassOf(t.rootOf, r);
    }
  }

  lemma CreateKeepsLog(rootOf: map<Node, Node>, log: seq<Pair>, x: Node)
    requires Represents(rootOf, log) && x !in rootOf
    ensures Represents(rootOf[x := x], log)
  {
    var rootOf' := rootOf[x := x];
    forall y {:trigger ReachesRoot(rootOf', log, y)} | y in rootOf' ensures ReachesRoot(rootOf', log, y) {
      if y == x {
        ConnectedReflexive(log, x);
      } else {
        assert ReachesRoot(rootOf, log, y);
      }
    }
  }

  /** Pointing a node straight at its root changes no class, no rank and no size. */
  lemma CompressKeepsForest(t: Trees, cur: Node)
    requires Forest(t) && cur in t.parent && t.parent[cur] != cur && cur in t.rootOf
    ensures Forest(t.(parent := t.parent[cur := t.rootOf[cur]]))
  {
    var t' := t.(parent := t.parent[cur := t.rootOf[cur]]);
    assert Placed(t, cur);
    forall y {:trigger Placed(t', y)} | y in t'.parent ensures Placed(t', y) {
      assert Placed(t, y);
    }
    forall r {:trigger Weighed(t', r)} | r in t'.parent && t'.rootOf[r] == r ensures Weighed(t', r) {
      assert Weighed(t, r);
    }
  }

  /** The partition after hanging root `rb` below root `ra`. */
  function Merge(rootOf: map<Node, Node>, ra: Node, rb: Node): map<Node, Node> {
    map x | x in rootOf :: if rootOf[x] == rb then ra else rootOf[x]
  }

  function RaiseRank(rank: map<Node, nat>, ra: Node, rb: Node): map<Node, nat>
    requires ra in rank && rb in rank
  {
    if rank[ra] == rank[rb] then rank[ra := rank[ra] + 1] else rank
  }

  ghost predicate TwoRoots(t: Trees, ra: Node, rb: Node) {
    && ra in t.rootOf && rb in t.rootOf && t.rootOf[ra] == ra && t.rootOf[rb] == rb && ra != rb
    && ra in t.rank && rb in t.rank && t.rank[rb] <= t.rank[ra] && ra in t.size && rb in t.size
  }

  /** Root `rb` hung below root `ra`, whose rank is not smaller. */
  ghost function Hung(t: Trees, ra: Node, rb: Node): Trees
    requires TwoRoots(t, ra, rb)
  {
    Trees(t.parent[rb := ra], RaiseRank(t.rank, ra, rb), t.size[ra := t.size[ra] + t.size[rb]], Merge(t.rootOf, ra, rb))
  }

  lemma RootsAreKeyed(t: Trees, x: Node)
    requires Forest(t) && x in t.rootOf
    ensures var r := t.rootOf[x]; r in t.parent && r in t.rank && r in t.size && r in t.rootOf && t.rootOf[r] == r
  {
    assert Placed(t, x);
  }

  /** Hanging merges exactly the two classes. */
  lemma HangKeepsForest(t: Trees, ra: Node, rb: Node)
    requires Forest(t) && TwoRoots(t, ra, rb)
    ensures Forest(Hung(t, ra, rb))
  {
    var t' := Hung(t, ra, rb);
    forall y {:trigger Placed(t', y)} | y in t'.parent ensures Placed(t', y) {
      HangPlaces(t, ra, rb, y);
    }
    forall r {:trigger Weighed(t', r)} | r in t'.parent && t'.rootOf[r] == r ensures Weighed(t', r) {
      HangWeighs(t, ra, rb, r);
    }
  }

  lemma HangPlaces(t: Trees, ra: Node, rb: Node, y: Node)
    requires Forest(t) && TwoRoots(t, ra, rb) && y in t.parent
    ensures Placed(Hung(t, ra, rb), y)
  {
    assert Placed(t, y);
    assert Placed(t, ra) && Placed(t, rb);
  }

  lemma HangWeighs(t: Trees, ra: Node, rb: Node, r: Node)
    requires Forest(t) && TwoRoots(t, ra, rb)
    requires r in t.rootOf && Merge(t.rootOf, ra, rb)[r] == r
    ensures Weighed(Hung(t, ra, rb), r)
  {
    var rootOf' := Merge(t.rootOf, ra, rb);
    assert Weighed(t, ra) && Weighed(t, rb);
    if r == ra {
      var x, y := ClassOf(t.rootOf, ra), ClassOf(t.rootOf, rb);
      assert ClassOf(rootOf', ra) == x + y;
      assert x !! y;
    } else {
      assert t.rootOf[r] == r && Weighed(t, r);
      assert ClassOf(rootOf', r) == ClassOf(t.rootOf, r);
    }
  }

  lemma SameClassKeepsLog(rootOf: map<Node, Node>, log: seq<Pair>, a: Node, b: Node)
    requires Represents(rootOf, log) && a in rootOf && b in rootOf && rootOf[a] == rootOf[b]
    ensures Represents(rootOf, log + [(a, b)])
  {
    var log' := log + [(a, b)];
    forall x {:trigger ReachesRoot(rootOf, log', x)} | x in rootOf ensures ReachesRoot(rootOf, log', x) {
      assert ReachesRoot(rootOf, log, x);
      ConnectedMonotone(log, [(a, b)], x, rootOf[x]);
    }
  }

  lemma MergeKeepsLog(rootOf: map<Node, Node>, log: seq<Pair>, ra: Node, rb: Node, a: Node, b: Node)
    requires Represents(rootOf, log) && a in rootOf && b in rootOf
    requires {ra, rb} == {rootOf[a], rootOf[b]}
    ensures Represents(Merge(rootOf, ra, rb), log + [(a, b)])
  {
    var log', rootOf' := log + [(a, b)], Merge(rootOf, ra, rb);
    forall x {:trigger ReachesRoot(rootOf', log', x)} | x in rootOf' ensures ReachesRoot(rootOf', log', x) {
      assert ReachesRoot(rootOf, log, x);
      ConnectedMonotone(log, [(a, b)], x, rootOf[x]);
      if rootOf[x] == rb {
        LoserReachesWinner(rootOf, log, ra, rb, a, b);
        ConnectedTransitive(log', x, rb, ra);
      }
    }
  }

  lemma LoserReachesWinner(rootOf: map<Node, Node>, log: seq<Pair>, ra: Node, rb: Node, a: Node, b: Node)
    requires Represents(rootOf, log) && a in rootOf && b in rootOf
    requires {ra, rb} == {rootOf[a], rootOf[b]}
    ensures Connected(log + [(a, b)], rb, ra)
  {
    var log' := log + [(a, b)];
    assert ReachesRoot(rootOf, log, a) && ReachesRoot(rootOf, log, b);
    ConnectedMonotone(log, [(a, b)], a, rootOf[a]);
    ConnectedMonotone(log, [(a, b)], b, rootOf[b]);
    assert log'[|log|] == (a, b);
    ConnectedByLink(log', a, b);
    ConnectedTransitive(log', a, b, rootOf[b]);
    ConnectedSymmetric(log', a, rootOf[a]);
    ConnectedTransitive(log', rootOf[a], a, rootOf[b]);
    ConnectedSymmetric(log', rootOf[a], rootOf[b]);
  }

  class UnionFind {
    var parent: map<Node, Node>
    var rank: map<Node, nat>
    var size: map<Node, nat>
    ghost var rootOf: map<Node, Node>
    ghost var log: seq<Pair>

    ghost function State(): Trees
      reads this
    {
      Trees(parent, rank, size, rootOf)
    }

    ghost predicate Valid()
      reads this
    {
      Forest(State()) && Represents(rootOf, log)
    }

    constructor ()
      ensures Valid() && log == [] && parent == map[]
    {
      parent, rank, size, rootOf, log := map[], map[], map[], map[], [];
    }

    /** Follows parent links up to the root. */
    method Climb(x: Node) returns (root: Node)
      requires Valid() && x in parent
      ensures x in rootOf && root in parent && root in rootOf && parent[root] == root == rootOf[root] == rootOf[x]
    {
      hide Represents, ClassOf;
      root := x;
      assert Placed(State(), x);
      while parent[root] != root
        invariant root in parent && root in rank && root in rootOf && rootOf[root] == rootOf[x]
        decreases Above(rank, root)
      {
        assert Placed(State(), root);
        AboveShrinks(rank, root, parent[root]);
        root := parent[root];
      }
      assert Placed(State(), root);
    }

    /** Points every node on the way from `x` at the root. */
    method Compress(x: Node, root: Node)
      requires Valid() && x in parent && x in rootOf && root in parent && parent[root] == root == rootOf[x]
      modifies this`parent
      ensures Valid() && parent.Keys == old(parent.Keys) && parent[x] == root == parent[root]
    {
      hide Represents, ClassOf;
      var cur := x;
      assert Placed(State(), x);
      while cur != root
        invariant Valid() && parent.Keys == old(parent.Keys)
        invariant cur in rank && cur in rootOf && cur in parent && rootOf[cur] == root
        invariant root in parent && parent[root] == root && (cur == x || parent[x] == root)
        decreases Above(rank, cur)
      {
        var next := parent[cur];
        assert Placed(State(), cur);
        AboveShrinks(rank, cur, next);
        CompressKeepsForest(State(), cur);
        parent := parent[cur := root];
        cur := next;
      }
    }

    /** Creates `x` on first sight; otherwise returns its root and points the whole path at it. */
    method Find(x: Node) returns (root: Node)
      requires Valid()
      modifies this
      ensures Valid() && log == old(log)
      ensures parent.Keys == old(parent.Keys) + {x}
      ensures rootOf == if x in old(parent) then old(rootOf) else old(rootOf)[x := x]
      ensures x in old(parent) ==> rank == old(rank) && size == old(size)
      ensures x in rootOf && root == rootOf[x] && root in parent && parent[x] == root
      ensures parent[root] == root && rootOf[root] == root
    {
      if x !in parent {
        CreateKeepsForest(State(), x);
        CreateKeepsLog(rootOf, log, x);
        parent, rank, size := parent[x := x], rank[x := 0], size[x := 1];
        rootOf := rootOf[x := x];
        return x;
      }
      hide Forest, Represents;
      root := Climb(x);
      Compress(x, root);
    }

    method Union(a: Node, b: Node)
      requires Valid()
      modifies this
      ensures Valid() && log == old(log) + [(a, b)]
      ensures parent.Keys == old(parent.Keys) + {a, b}
    {
      hide Forest, Represents;
      var ra := Find(a);
      var rb := Find(b);
      if ra == rb {
        SameClassKeepsLog(rootOf, log, a, b);
        log := log + [(a, b)];
        return;
      }
      Hang(ra, rb, a, b);
    }

    /** The tail of `Union`: joins two different roots by rank. */
    method Hang(r0: Node, r1: Node, ghost a: Node, ghost b: Node)
      requires Valid() && a in rootOf && b in rootOf
      requires r0 == rootOf[a] && r1 == rootOf[b] && r0 != r1
      modifies this
      ensures Valid() && log == old(log) + [(a, b)] && parent.Keys == old(parent.Keys)
    {
      hide Forest, Represents, Merge;
      var ra, rb := r0, r1;
      RootsAreKeyed(State(), a);
      RootsAreKeyed(State(), b);
      var ka, kb := rank[ra], rank[rb];
      if ka < kb {
        ra, rb := rb, ra;
      }
      MergeKeepsLog(rootOf, log, ra, rb, a, b);
      ghost var merged := Merge(rootOf, ra, rb);
      var parent' := parent[rb := ra];
      var size' := size[ra := size[ra] + size[rb]];
      var rank' := if ka == kb then rank[ra := ka + 1] else rank;
      HangKeepsForest(State(), ra, rb);
      parent, size, rank := parent', size', rank';
      rootOf, log := merged, log + [(a, b)];
    }

    method ComponentSize(x: Node) returns (n: nat)
      requires Valid()
      modifies this
      ensures Valid() && log == old(log) && parent.Keys == old(parent.Keys) + {x}
      ensures n == |Component(log, x)|
    {
      var root := Find(x);
      assert Weighed(State(), root);
      ClassIsComponent(rootOf, log, x);
      n := size[root];
    }

    /** The size without creating an unknown node. */
    method ComponentSizeIfKnown(x: Node) returns (n: nat)
      requires Valid()
      modifies this
      ensures Valid() && log == old(log) && parent.Keys == old(parent.Keys)
      ensures n == |Component(log, x)|
    {
      if x in parent {
        n := ComponentSize(x);
      } else {
        StrangerIsAlone(rootOf, log, x);
        n := 1;
      }
    }
  }
}
