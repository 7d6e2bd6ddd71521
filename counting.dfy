/** The three counting traversals of RadixTree.java against a flat list of the
    nodes below a node, in preorder. */
module Counting {
  import opened Dna
  import opened TreeModel

  /** The proper descendants of `t`, a node before its own descendants and slot 0
      first. */
  function Descendants(t: Tree): seq<Tree>
    requires Shaped(t)
    decreases t, 1
  {
    DescendantsUpTo(t, MaxChildren)
  }

  /** The descendants reached through the first `i` slots. */
  function DescendantsUpTo(t: Tree, i: nat): seq<Tree>
    requires Shaped(t) && i <= MaxChildren
    decreases t, 0, i
  {
    if i == 0 then []
    else
      DescendantsUpTo(t, i - 1) +
      match t.children[i - 1]
      case None => []
      case Some(c) => [c] + Descendants(c)
  }

  /** The sum of the counters of the end markers in `ns`. */
  function Weight(ns: seq<Tree>): int {
    if ns == [] then 0 else Weight(ns[..|ns| - 1]) + EndCount(Some(ns[|ns| - 1]))
  }

  /** The number of end markers in `ns`. */
  function Ends(ns: seq<Tree>): nat {
    if ns == [] then 0 else Ends(ns[..|ns| - 1]) + (if ns[|ns| - 1].isEnd then 1 else 0)
  }

  lemma {:induction false} WeightAppend(a: seq<Tree>, b: seq<Tree>)
    ensures Weight(a + b) == Weight(a) + Weight(b)
    ensures Ends(a + b) == Ends(a) + Ends(b)
    decreases |b|
  {
    if b == [] {
      assert a + b == a;
    } else {
      var b' := b[..|b| - 1];
      assert (a + b)[..|a + b| - 1] == a + b';
      WeightAppend(a, b');
    }
  }

  lemma WeightOne(n: Tree)
    ensures Weight([n]) == EndCount(Some(n)) && Ends([n]) == (if n.isEnd then 1 else 0)
  {
    assert [n][..0] == [];
  }

  /** A node without a child has no descendants. */
  lemma NoChildNoDescendants(t: Tree)
    requires Shaped(t) && !HasAChild(t)
    ensures Descendants(t) == []
  {
    assert t.children[0].None? && t.children[1].None? && t.children[2].None? && t.children[3].None?;
    assert DescendantsUpTo(t, 1) == [];
    assert DescendantsUpTo(t, 2) == [];
    assert DescendantsUpTo(t, 3) == [];
  }

  /** countNodes(node, 1) is the number of nodes in the subtree of `node`. */
  lemma {:induction false} CountNodesIsSize(t: Tree)
    requires Shaped(t)
    ensures CountNodes(Some(t), 1) == 1 + |Descendants(t)|
    decreases t, 1
  {
    if HasAChild(t) {
      CountNodesUpToIsSize(t, MaxChildren);
    } else {
      NoChildNoDescendants(t);
    }
  }

  lemma {:induction false} CountNodesUpToIsSize(t: Tree, i: nat)
    requires Shaped(t) && i <= MaxChildren
    ensures CountNodesUpTo(t, i) == |DescendantsUpTo(t, i)|
    decreases t, 0, i
  {
    if i > 0 {
      CountNodesUpToIsSize(t, i - 1);
      match t.children[i - 1]
      case None =>
      case Some(c) => CountNodesIsSize(c);
    }
  }

  /** countNodes(root, 0), as the program calls it: the number of non-root nodes
      when the root has a child, and 1 for a root without one. */
  lemma CountNodesFromRoot(root: Tree)
    requires Shaped(root)
    ensures CountNodes(Some(root), 0) == if HasAChild(root) then |Descendants(root)| else 1
  {
    if HasAChild(root) {
      CountNodesUpToIsSize(root, MaxChildren);
    }
  }

  /** countStrings(node, x) is x plus the counters of the end markers below `node`. */
  lemma {:induction false} CountStringsIsWeight(t: Tree, totalSoFar: int)
    requires Shaped(t)
    ensures CountStrings(Some(t), totalSoFar) == totalSoFar + Weight(Descendants(t))
    decreases t, 1
  {
    CountStringsUpToIsWeight(t, MaxChildren);
  }

  lemma {:induction false} CountStringsUpToIsWeight(t: Tree, i: nat)
    requires Shaped(t) && i <= MaxChildren
    ensures CountStringsUpTo(t, i) == Weight(DescendantsUpTo(t, i))
    decreases t, 0, i
  {
    if i > 0 {
      CountStringsUpToIsWeight(t, i - 1);
      var before := DescendantsUpTo(t, i - 1);
      match t.children[i - 1]
      case None =>
        assert DescendantsUpTo(t, i) == before + [];
        WeightAppend(before, []);
      case Some(c) =>
        CountStringsIsWeight(c, EndCount(Some(c)));
        WeightAppend(before, [c] + Descendants(c));
        WeightAppend([c], Descendants(c));
        WeightOne(c);
    }
  }

  /** countUniqueStrings(node, x) is x plus the number of end markers below `node`. */
  lemma {:induction false} CountUniqueIsEnds(t: Tree, totalSoFar: int)
    requires Shaped(t)
    ensures CountUniqueStrings(Some(t), totalSoFar) == totalSoFar + Ends(Descendants(t))
    decreases t, 1
  {
    CountUniqueUpToIsEnds(t, MaxChildren);
  }

  lemma {:induction false} CountUniqueUpToIsEnds(t: Tree, i: nat)
    requires Shaped(t) && i <= MaxChildren
    ensures CountUniqueUpTo(t, i) == Ends(DescendantsUpTo(t, i))
    decreases t, 0, i
  {
    if i > 0 {
      CountUniqueUpToIsEnds(t, i - 1);
      var before := DescendantsUpTo(t, i - 1);
      match t.children[i - 1]
      case None =>
        assert DescendantsUpTo(t, i) == before + [];
        WeightAppend(before, []);
      case Some(c) =>
        CountUniqueIsEnds(c, EndMark(Some(c)));
        WeightAppend(before, [c] + Descendants(c));
        WeightAppend([c], Descendants(c));
        WeightOne(c);
    }
  }

  /** gatherStrings appends one string per end marker of the subtree. */
  lemma {:induction false} GatherCountsEnds(t: Tree, seg: string)
    requires Shaped(t)
    ensures |GatherStrings(Some(t), seg)| == Ends([t] + Descendants(t))
    decreases t, 1
  {
    GatherUpToCountsEnds(t, seg, MaxChildren);
    WeightAppend([t], Descendants(t));
    WeightOne(t);
  }

  lemma {:induction false} GatherUpToCountsEnds(t: Tree, seg: string, i: nat)
    requires Shaped(t) && i <= MaxChildren
    ensures |GatherUpTo(t, seg, i)| == Ends(DescendantsUpTo(t, i))
    decreases t, 0, i
  {
    if i > 0 {
      GatherUpToCountsEnds(t, seg, i - 1);
      var before := DescendantsUpTo(t, i - 1);
      match t.children[i - 1]
      case None =>
        assert DescendantsUpTo(t, i) == before + [];
        WeightAppend(before, []);
      case Some(c) =>
        GatherCountsEnds(c, seg + c.prefix);
        WeightAppend(before, [c] + Descendants(c));
    }
  }

  /** From the root (never an end marker), gatherStrings lists exactly as many
      strings as countUniqueStrings counts. */
  lemma GatherMatchesUniqueCount(root: Tree)
    requires Shaped(root) && !root.isEnd
    ensures |GatherStrings(Some(root), "")| == CountUniqueStrings(Some(root), 0)
  {
    GatherCountsEnds(root, "");
    CountUniqueIsEnds(root, 0);
    WeightAppend([root], Descendants(root));
    WeightOne(root);
  }
}
