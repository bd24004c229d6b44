/** Account ids. The engine only ever compares them for equality, so any type with equality would do. */
module Accounts {
  type Node = int
}

/** Walks over a directed graph that is given by each node's list of destinations. */
module Walks {
  import opened Accounts
  import opened Collections

  type Links = map<Node, seq<Node>>

  function Next(g: Links, n: Node): seq<Node> {
    if n in g then g[n] else []
  }

  ghost predicate IsWalk(g: Links, p: seq<Node>) {
    |p| > 0 && forall i :: 0 <= i < |p| - 1 ==> p[i + 1] in Next(g, p[i])
  }

  ghost predicate WalkFromTo(g: Links, p: seq<Node>, a: Node, b: Node) {
    IsWalk(g, p) && p[0] == a && p[|p| - 1] == b
  }

  /** Some walk of at most `hops` links leads from `a` to `b`. */
  ghost predicate Within(g: Links, a: Node, b: Node, hops: int) {
    exists p :: WalkFromTo(g, p, a, b) && |p| - 1 <= hops
  }

  lemma WalkPrefix(g: Links, p: seq<Node>, n: nat)
    requires IsWalk(g, p) && 0 < n <= |p|
    ensures IsWalk(g, p[..n])
  {
    forall i | 0 <= i < n - 1 ensures p[..n][i + 1] in Next(g, p[..n][i]) {
      assert p[i + 1] in Next(g, p[i]);
    }
  }

  lemma WalkSuffix(g: Links, p: seq<Node>, n: nat)
    requires IsWalk(g, p) && n < |p|
    ensures IsWalk(g, p[n..])
  {
    forall i | 0 <= i < |p| - n - 1 ensures p[n..][i + 1] in Next(g, p[n..][i]) {
      assert p[n + i + 1] in Next(g, p[n + i]);
    }
  }

  lemma JoinWalks(g: Links, p: seq<Node>, q: seq<Node>)
    requires IsWalk(g, p) && IsWalk(g, q) && q[0] in Next(g, p[|p| - 1])
    ensures IsWalk(g, p + q)
  {
    var r := p + q;
    forall i | 0 <= i < |r| - 1 ensures r[i + 1] in Next(g, r[i]) {
      if i < |p| - 1 {
        assert p[i + 1] in Next(g, p[i]);
      } else if i >= |p| {
        assert q[i - |p| + 1] in Next(g, q[i - |p|]);
      }
    }
  }

  /** Cutting out loops turns any walk into one that repeats no node and is no longer. */
  lemma {:induction false} Straighten(g: Links, p: seq<Node>) returns (q: seq<Node>)
    requires IsWalk(g, p)
    ensures WalkFromTo(g, q, p[0], p[|p| - 1]) && NoDuplicates(q) && |q| <= |p|
    decreases |p|
  {
    if NoDuplicates(p) {
      q := p;
    } else {
      var i, j :| 0 <= i < j < |p| && p[i] == p[j];
      WalkSuffix(g, p, j);
      if i == 0 {
        q := Straighten(g, p[j..]);
      } else {
        WalkPrefix(g, p, i);
        assert p[i - 1 + 1] in Next(g, p[i - 1]);
        JoinWalks(g, p[..i], p[j..]);
        q := Straighten(g, p[..i] + p[j..]);
      }
    }
  }
}
