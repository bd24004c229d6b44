/**
 The bounded backtracking search for a payment cycle, as a function of the live destinations. `DfsFrom` is the
 search over the destinations of `node` from position `i` on; the class in CycleSearch.dfy refines it in place.
 */
module CycleDetector {
  import opened Accounts
  import opened Collections
  import opened Walks

  function DfsFrom(g: Links, target: Node, node: Node, i: nat, depth: int, maxDepth: int,
                   path: seq<Node>, onPath: set<Node>): Option<seq<Node>>
    requires i <= |Next(g, node)|
    decreases maxDepth - depth, |Next(g, node)| - i
  {
    if i == |Next(g, node)| then
      None
    else
      var next := Next(g, node)[i];
      if next == target then
        Some(path + [target])
      else if depth + 1 > maxDepth - 1 || next in onPath then
        DfsFrom(g, target, node, i + 1, depth, maxDepth, path, onPath)
      else
        var deeper := DfsFrom(g, target, next, 0, depth + 1, maxDepth, path + [next], onPath + {next});
        if deeper.Some? then deeper else DfsFrom(g, target, node, i + 1, depth, maxDepth, path, onPath)
  }

  /** The cycle as [src, dst, .., src], or nothing. */
  function FindCycle(g: Links, src: Node, dst: Node, maxDepth: int): seq<Node> {
    if maxDepth < 2 || src == dst then
      []
    else
      match DfsFrom(g, src, dst, 0, 1, maxDepth, [src, dst], {src, dst})
      case Some(cycle) => cycle
      case None => []
  }

  // ---------- what a search result means ----------

  /** From `node`, the links `w` lead to `target` through new nodes only, none of them on the path already. */
  ghost predicate Closing(g: Links, target: Node, node: Node, w: seq<Node>, onPath: set<Node>) {
    && |w| > 0 && w[|w| - 1] == target
    && IsWalk(g, [node] + w)
    && NoDuplicates(w)
    && (forall k :: 0 <= k < |w| - 1 ==> w[k] !in onPath)
  }

  /** The way `w` starts with the destination at position `j`, before which no destination is the target. */
  ghost predicate StartsBeforeTarget(dsts: seq<Node>, i: nat, j: nat, target: Node, first: Node) {
    && i <= j < |dsts| && dsts[j] == first
    && (forall k :: i <= k < j ==> dsts[k] != target)
  }

  lemma {:induction false} DfsSound(g: Links, target: Node, node: Node, i: nat, depth: int, maxDepth: int,
                                    path: seq<Node>, onPath: set<Node>) returns (w: seq<Node>, j: nat)
    requires i <= |Next(g, node)| && depth <= maxDepth - 1
    requires DfsFrom(g, target, node, i, depth, maxDepth, path, onPath).Some?
    ensures DfsFrom(g, target, node, i, depth, maxDepth, path, onPath) == Some(path + w)
    ensures Closing(g, target, node, w, onPath) && |w| <= maxDepth - depth
    ensures StartsBeforeTarget(Next(g, node), i, j, target, w[0])
    decreases maxDepth - depth, |Next(g, node)| - i
  {
    var next := Next(g, node)[i];
    if next == target {
      w, j := [target], i;
    } else if depth + 1 > maxDepth - 1 || next in onPath {
      w, j := DfsSound(g, target, node, i + 1, depth, maxDepth, path, onPath);
    } else {
      var deeper := DfsFrom(g, target, next, 0, depth + 1, maxDepth, path + [next], onPath + {next});
      if deeper.Some? {
        var tail, _ := DfsSound(g, target, next, 0, depth + 1, maxDepth, path + [next], onPath + {next});
        w, j := [next] + tail, i;
        assert path + [next] + tail == path + w;
        PrependClosing(g, target, node, next, tail, onPath);
      } else {
        w, j := DfsSound(g, target, node, i + 1, depth, maxDepth, path, onPath);
      }
    }
  }

  lemma PrependClosing(g: Links, target: Node, node: Node, next: Node, tail: seq<Node>, onPath: set<Node>)
    requires Closing(g, target, next, tail, onPath + {next})
    requires next in Next(g, node) && next !in onPath && next != target
    ensures Closing(g, target, node, [next] + tail, onPath)
  {
    var w := [next] + tail;
    JoinWalks(g, [node], w);
    assert [node] + w == [node] + ([next] + tail);
    forall a, b | 0 <= a < b < |w| ensures w[a] != w[b] {
      if a == 0 {
        assert w[b] == tail[b - 1];
      } else {
        assert tail[a - 1] != tail[b - 1];
      }
    }
    forall k | 0 <= k < |w| - 1 ensures w[k] !in onPath {
      if k > 0 {
        assert tail[k - 1] !in onPath + {next};
      }
    }
  }

  lemma DropClosing(g: Links, target: Node, node: Node, w: seq<Node>, onPath: set<Node>)
    requires Closing(g, target, node, w, onPath) && |w| > 1
    ensures w[0] != target && w[0] !in onPath && w[1] in Next(g, w[0])
    ensures Closing(g, target, w[0], w[1..], onPath + {w[0]})
  {
    WalkSuffix(g, [node] + w, 1);
    assert ([node] + w)[1..] == w == [w[0]] + w[1..];
    assert w[0 + 1] in Next(g, w[0]);
    assert w[0] != w[|w| - 1];
    forall k | 0 <= k < |w[1..]| - 1 ensures w[1..][k] !in onPath + {w[0]} {
      assert w[k + 1] !in onPath && w[0] != w[k + 1];
    }
  }

  /** If some way closes within the budget the search succeeds, and only a direct link can hide a longer one. */
  lemma {:induction false} DfsComplete(g: Links, target: Node, node: Node, i: nat, depth: int, maxDepth: int,
                                       path: seq<Node>, onPath: set<Node>, w: seq<Node>, j: nat)
    requires i <= j < |Next(g, node)| && depth <= maxDepth - 1
    requires Closing(g, target, node, w, onPath) && |w| <= maxDepth - depth && Next(g, node)[j] == w[0]
    ensures DfsFrom(g, target, node, i, depth, maxDepth, path, onPath).Some?
    ensures |w| > 1 && StartsBeforeTarget(Next(g, node), i, j, target, w[0]) ==>
              |DfsFrom(g, target, node, i, depth, maxDepth, path, onPath).value| >= |path| + 2
    decreases maxDepth - depth, |Next(g, node)| - i
  {
    var next := Next(g, node)[i];
    if |w| > 1 {
      DropClosing(g, target, node, w, onPath);
    }
    if next == target {
    } else if depth + 1 > maxDepth - 1 || next in onPath {
      DfsComplete(g, target, node, i + 1, depth, maxDepth, path, onPath, w, j);
    } else if DfsFrom(g, target, next, 0, depth + 1, maxDepth, path + [next], onPath + {next}).Some? {
      var tail, _ := DfsSound(g, target, next, 0, depth + 1, maxDepth, path + [next], onPath + {next});
    } else if i < j {
      DfsComplete(g, target, node, i + 1, depth, maxDepth, path, onPath, w, j);
    } else {
      var k :| 0 <= k < |Next(g, next)| && Next(g, next)[k] == w[1];
      DfsComplete(g, target, next, 0, depth + 1, maxDepth, path + [next], onPath + {next}, w[1..], k);
    }
  }

  // ---------- the cycle search ----------

  /** `c` runs [src, dst, .., src], follows links from `dst` on, and repeats no node but its ends. */
  ghost predicate IsCycle(g: Links, c: seq<Node>, src: Node, dst: Node) {
    && |c| > 2 && c[0] == src && c[1] == dst && c[|c| - 1] == src
    && IsWalk(g, c[1..])
    && NoDuplicates(c[1..])
  }

  lemma ClosingIsCycle(g: Links, src: Node, dst: Node, w: seq<Node>)
    requires src != dst
    ensures Closing(g, src, dst, w, {src, dst}) <==> IsCycle(g, [src, dst] + w, src, dst)
  {
    var c := [src, dst] + w;
    assert c[1..] == [dst] + w;
    if Closing(g, src, dst, w, {src, dst}) {
      forall a, b | 0 <= a < b < |c[1..]| ensures c[1..][a] != c[1..][b] {
        if a == 0 && b < |w| {
          assert w[b - 1] !in {src, dst};
        } else if a > 0 {
          assert w[a - 1] != w[b - 1];
        }
      }
    }
    if IsCycle(g, c, src, dst) {
      forall a, b | 0 <= a < b < |w| ensures w[a] != w[b] {
        assert c[1..][a + 1] != c[1..][b + 1];
      }
      forall k | 0 <= k < |w| - 1 ensures w[k] !in {src, dst} {
        assert c[1..][0] != c[1..][k + 1] && c[1..][k + 1] != c[1..][|w|];
      }
    }
  }

  lemma CycleSplit(g: Links, c: seq<Node>, src: Node, dst: Node)
    requires IsCycle(g, c, src, dst)
    ensures c == [src, dst] + c[2..] && src != dst && c[2] in Next(g, dst)
    ensures Closing(g, src, dst, c[2..], {src, dst})
  {
    assert c[1..][0] != c[1..][|c| - 2];
    assert c[1..][0 + 1] in Next(g, c[1..][0]);
    ClosingIsCycle(g, src, dst, c[2..]);
  }

  /** Whatever is reported is a real cycle of at most `maxDepth` links. */
  lemma FindCycleSound(g: Links, src: Node, dst: Node, maxDepth: int)
    requires FindCycle(g, src, dst, maxDepth) != []
    ensures IsCycle(g, FindCycle(g, src, dst, maxDepth), src, dst)
    ensures |FindCycle(g, src, dst, maxDepth)| - 1 <= maxDepth
  {
    var w, j := DfsSound(g, src, dst, 0, 1, maxDepth, [src, dst], {src, dst});
    ClosingIsCycle(g, src, dst, w);
  }

  lemma CycleIsFound(g: Links, c: seq<Node>, src: Node, dst: Node, maxDepth: int, j: nat)
    requires IsCycle(g, c, src, dst) && |c| - 1 <= maxDepth
    requires j < |Next(g, dst)| && Next(g, dst)[j] == c[2]
    ensures FindCycle(g, src, dst, maxDepth) != []
    ensures |c| > 3 && StartsBeforeTarget(Next(g, dst), 0, j, src, c[2]) ==> |FindCycle(g, src, dst, maxDepth)| > 3
  {
    CycleSplit(g, c, src, dst);
    DfsComplete(g, src, dst, 0, 1, maxDepth, [src, dst], {src, dst}, c[2..], j);
    var _, _ := DfsSound(g, src, dst, 0, 1, maxDepth, [src, dst], {src, dst});
  }

  /** The search succeeds exactly when at most `maxDepth - 1` live links lead from `dst` back to `src`. */
  lemma FindCycleIffWalkBack(g: Links, src: Node, dst: Node, maxDepth: int)
    ensures FindCycle(g, src, dst, maxDepth) != [] <==> src != dst && Within(g, dst, src, maxDepth - 1)
  {
    if FindCycle(g, src, dst, maxDepth) != [] {
      FindCycleSound(g, src, dst, maxDepth);
      var c := FindCycle(g, src, dst, maxDepth);
      assert WalkFromTo(g, c[1..], dst, src);
    }
    if src != dst && Within(g, dst, src, maxDepth - 1) {
      var p :| WalkFromTo(g, p, dst, src) && |p| - 1 <= maxDepth - 1;
      var q := Straighten(g, p);
      var c := [src] + q;
      assert c[1..] == q;
      assert IsCycle(g, c, src, dst);
      CycleSplit(g, c, src, dst);
      var j :| 0 <= j < |Next(g, dst)| && Next(g, dst)[j] == c[2];
      CycleIsFound(g, c, src, dst, maxDepth, j);
    }
  }

  /**
   The search returns a cycle of three or more links exactly when one exists whose third node comes, in the
   destination list of `dst`, before any direct link back to `src`. A direct link listed earlier hides it.
   */
  lemma LongCycleIff(g: Links, src: Node, dst: Node, maxDepth: int)
    ensures |FindCycle(g, src, dst, maxDepth)| > 3 <==>
            exists c, j :: IsCycle(g, c, src, dst) && 3 < |c| <= maxDepth + 1
                           && StartsBeforeTarget(Next(g, dst), 0, j, src, c[2])
  {
    var found := FindCycle(g, src, dst, maxDepth);
    if |found| > 3 {
      FindCycleSound(g, src, dst, maxDepth);
      var w, j := DfsSound(g, src, dst, 0, 1, maxDepth, [src, dst], {src, dst});
      assert found[2] == w[0];
      assert StartsBeforeTarget(Next(g, dst), 0, j, src, found[2]);
    }
    forall c, j | IsCycle(g, c, src, dst) && 3 < |c| <= maxDepth + 1 && StartsBeforeTarget(Next(g, dst), 0, j, src, c[2])
      ensures |found| > 3
    {
      CycleIsFound(g, c, src, dst, maxDepth, j);
    }
  }
}
