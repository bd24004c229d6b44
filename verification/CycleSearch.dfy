/** The cycle search as it runs: one path and one on-path set, pushed and popped while edges expire underneath. */
module CycleSearch {
  import opened Accounts
  import opened Collections
  import opened Walks
  import opened EdgeStore
  import opened CycleDetector

  function Power(b: nat, n: nat): nat {
    if n == 0 then 1 else b * Power(b, n - 1)
  }

  /** 1 + b + .. + b^(n-1): the nodes of a tree with `n` levels and branching `b`. */
  function TreeSize(b: nat, n: nat): nat {
    if n == 0 then 0 else TreeSize(b, n - 1) + Power(b, n - 1)
  }

  /** What `i` subtrees of equal size hold together. */
  ghost function Subtrees(i: nat, size: nat): nat {
    if i == 0 then 0 else Subtrees(i - 1, size) + size
  }

  lemma {:induction false} SubtreesMonotone(i: nat, j: nat, size: nat)
    requires i <= j
    ensures Subtrees(i, size) <= Subtrees(j, size)
    decreases j
  {
    if i < j {
      SubtreesMonotone(i, j - 1, size);
    }
  }

  lemma {:induction false} SubtreesIsProduct(i: nat, size: nat)
    ensures Subtrees(i, size) == i * size
  {
    if i > 0 {
      SubtreesIsProduct(i - 1, size);
    }
  }

  lemma NothingSpent(size: nat)
    ensures Subtrees(0, size) == 0
    ensures forall i: nat :: Subtrees(i + 1, size) == Subtrees(i, size) + size
  {
  }

  /** A tree is its root and, below it, `b` trees with one level less. */
  lemma {:induction false} TreeSizeFromRoot(b: nat, n: nat)
    requires n > 0
    ensures TreeSize(b, n) == 1 + Subtrees(b, TreeSize(b, n - 1))
  {
    SubtreesIsProduct(b, TreeSize(b, n - 1));
    if n > 1 {
      TreeSizeFromRoot(b, n - 1);
      SubtreesIsProduct(b, TreeSize(b, n - 2));
    }
  }

  ghost predicate Branching(g: Links, b: nat) {
    forall n :: |Next(g, n)| <= b
  }

  class Search {
    var path: seq<Node>
    var onPath: set<Node>

    constructor (src: Node, dst: Node)
      ensures path == [src, dst] && onPath == {src, dst}
    {
      path, onPath := [src, dst], {src, dst};
    }

    /** The search left `p` as the path, or failed and put path and on-path set back as they were. */
    ghost predicate Outcome(found: bool, result: Option<seq<Node>>, path0: seq<Node>, onPath0: set<Node>)
      reads this
    {
      match result
      case Some(p) => found && path == p
      case None => !found && path == path0 && onPath == onPath0
    }

    /** Refines `DfsFrom` on the links live at `nowMs`, and looks up no more nodes than a full tree holds. */
    method Dfs(target: Node, node: Node, depth: int, maxDepth: int, store: Store, nowMs: int, ghost b: nat)
      returns (found: bool)
      requires depth <= maxDepth - 1
      requires Branching(LiveLinks(store.adjacency, nowMs - store.edgeTtlMs), b)
      modifies this, store
      ensures Settled(old(store.adjacency), store.adjacency, nowMs - store.edgeTtlMs)
      ensures Outcome(found, DfsFrom(LiveLinks(old(store.adjacency), nowMs - store.edgeTtlMs), target, node, 0, depth,
                                     maxDepth, old(path), old(onPath)), old(path), old(onPath))
      ensures store.lookups <= old(store.lookups) + TreeSize(b, maxDepth - depth)
      decreases maxDepth - depth, 1
    {
      hide Settled, LiveLinks, TreeSize, Subtrees;
      ghost var cutoff := nowMs - store.edgeTtlMs;
      NothingSpent(TreeSize(b, maxDepth - depth - 1));
      ghost var g := LiveLinks(store.adjacency, cutoff);
      ghost var path0, onPath0, adj0 := path, onPath, store.adjacency;
      var dsts := store.LiveDestinations(node, nowMs);
      assert |dsts| <= b;
      TreeSizeFromRoot(b, maxDepth - depth);
      ghost var perChild := TreeSize(b, maxDepth - depth - 1);
      var i := 0;
      while i < |dsts|
        invariant i <= |dsts|
        invariant path == path0 && onPath == onPath0
        invariant Settled(adj0, store.adjacency, cutoff)
        invariant DfsFrom(g, target, node, 0, depth, maxDepth, path0, onPath0)
               == DfsFrom(g, target, node, i, depth, maxDepth, path0, onPath0)
        invariant store.lookups <= old(store.lookups) + 1 + Subtrees(i, perChild)
      {
        var next := dsts[i];
        SubtreesMonotone(i + 1, b, perChild);
        if next == target {
          path := path + [target];
          return true;
        }
        if depth + 1 <= maxDepth - 1 && next !in onPath {
          ghost var adj1 := store.adjacency;
          SettledIsInvisible(adj0, adj1, cutoff);
          var deeper := Descend(target, next, depth, maxDepth, store, nowMs, b);
          SettledTransitive(adj0, adj1, store.adjacency, cutoff);
          if deeper {
            return true;
          }
        }
        i := i + 1;
      }
      SubtreesMonotone(i, b, perChild);
      return false;
    }

    /** One step of the loop: puts `next` on the path, searches from it, and takes it off again on failure. */
    method Descend(target: Node, next: Node, depth: int, maxDepth: int, store: Store, nowMs: int, ghost b: nat)
      returns (found: bool)
      requires depth + 1 <= maxDepth - 1 && next !in onPath
      requires Branching(LiveLinks(store.adjacency, nowMs - store.edgeTtlMs), b)
      modifies this, store
      ensures Settled(old(store.adjacency), store.adjacency, nowMs - store.edgeTtlMs)
      ensures Outcome(found, DfsFrom(LiveLinks(old(store.adjacency), nowMs - store.edgeTtlMs), target, next, 0,
                                     depth + 1, maxDepth, old(path) + [next], old(onPath) + {next}),
                      old(path), old(onPath))
      ensures store.lookups <= old(store.lookups) + TreeSize(b, maxDepth - depth - 1)
      decreases maxDepth - depth, 0
    {
      path := path + [next];
      onPath := onPath + {next};
      found := Dfs(target, next, depth + 1, maxDepth, store, nowMs, b);
      if !found {
        path := path[..|path| - 1];
        onPath := onPath - {next};
        assert path == old(path) && onPath == old(onPath);
      }
    }
  }

  /** Finds the cycle a new transfer src -> dst closes, as the specification says, within the lookup budget. */
  method Find(src: Node, dst: Node, maxDepth: int, store: Store, nowMs: int, ghost b: nat)
    returns (cycle: seq<Node>)
    requires Branching(LiveLinks(store.adjacency, nowMs - store.edgeTtlMs), b)
    modifies store
    ensures Settled(old(store.adjacency), store.adjacency, nowMs - store.edgeTtlMs)
    ensures cycle == FindCycle(LiveLinks(old(store.adjacency), nowMs - store.edgeTtlMs), src, dst, maxDepth)
    ensures store.lookups <= old(store.lookups) + if maxDepth < 2 then 0 else TreeSize(b, maxDepth - 1)
  {
    if maxDepth < 2 || src == dst {
      return [];
    }
    var search := new Search(src, dst);
    var found := search.Dfs(src, dst, 1, maxDepth, store, nowMs, b);
    return if found then search.path else [];
  }
}
