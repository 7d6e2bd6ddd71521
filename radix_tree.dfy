/** The heap form of RadixTree.java: nodes are objects with a four-slot child
    array that insertDNA, deleteDNA and deleteNode update in place. Each node
    carries a ghost `Model`, the value of its subtree, and every operation is
    proved to act on that value as the functions of module TreeModel do. */
module RadixTree {
  import opened Dna
  import opened TreeModel

  class Node {
    var endOfDna: bool
    var countOfDna: int
    var prefixCode: string
    const childNode: array<Node?>

    /** The subtree below this node, as a value. */
    ghost var Model: Tree
    /** This node, its child array and every object below it. */
    ghost var Repr: set<object>

    /** The fields agree with `Model`, slot k holds a node exactly when the model
        has a subtree there, that node is valid and models it, and different
        slots own disjoint parts of the heap. */
    ghost predicate Valid()
      reads this, Repr
      decreases Repr
    {
      this in Repr && childNode in Repr && childNode.Length == MaxChildren &&
      Shaped(Model) &&
      Model.prefix == prefixCode && Model.isEnd == endOfDna && Model.count == countOfDna &&
      (forall k | 0 <= k < MaxChildren ::
        (childNode[k] == null <==> Model.children[k] == None) &&
        (childNode[k] != null ==>
          childNode[k] in Repr && childNode[k].Repr <= Repr &&
          this !in childNode[k].Repr && childNode !in childNode[k].Repr &&
          childNode[k].Valid() && Model.children[k] == Some(childNode[k].Model))) &&
      (forall j, k | 0 <= j < k < MaxChildren && childNode[j] != null && childNode[k] != null ::
        childNode[j].Repr !! childNode[k].Repr)
    }

    /** Node(): no end marker, counter 0, every slot empty. The segment is unset
        until the caller assigns one; it is modelled as the empty segment. */
    constructor ()
      ensures Valid() && fresh(Repr) && Repr == {this, childNode}
      ensures Model == Tree("", false, 0, NoChildren)
      ensures !endOfDna && countOfDna == 0 && prefixCode == ""
      ensures forall k | 0 <= k < MaxChildren :: childNode[k] == null
    {
      var slots := new Node?[MaxChildren];
      for i := 0 to MaxChildren
        invariant forall k | 0 <= k < i :: slots[k] == null
      {
        slots[i] := null;
      }
      endOfDna := false;
      countOfDna := 0;
      prefixCode := "";
      childNode := slots;
      Model := Tree("", false, 0, NoChildren);
      Repr := {this, slots};
    }
  }

  /** The subtree a possibly absent node stands for. */
  ghost function ModelOf(node: Node?): Option<Tree>
    reads node
  {
    if node == null then None else Some(node.Model)
  }

  /** The objects a possibly absent node owns. */
  ghost function ReprOf(node: Node?): set<object>
    reads node
  {
    if node == null then {} else node.Repr
  }

  /** A possibly absent node that is valid if present. */
  ghost predicate ValidOrNull(node: Node?)
    reads node, ReprOf(node)
  {
    node != null ==> node.Valid()
  }

  /** prefixCodeLength: 0 for an absent node. */
  function PrefixCodeLength(node: Node?): (n: nat)
    reads node
    ensures node != null ==> n == |node.prefixCode|
    ensures node == null ==> n == 0
  {
    if node == null then 0 else |node.prefixCode|
  }

  /** commonPrefixLength(nucleotide, node): 0 for an absent node. */
  function CommonPrefixWith(nucleotide: string, node: Node?): (m: nat)
    reads node
    ensures m <= |nucleotide| && m <= PrefixCodeLength(node)
  {
    if node == null then 0 else CommonPrefixLength(nucleotide, node.prefixCode)
  }

  /** hasAChild: scans the slots and stops at the first occupied one. */
  method HasAChild(tree: Node?) returns (b: bool)
    requires ValidOrNull(tree)
    ensures b <==> tree != null && TreeModel.HasAChild(tree.Model)
  {
    if tree == null {
      return false;
    }
    for i := 0 to MaxChildren
      invariant forall k | 0 <= k < i :: tree.Model.children[k] == None
    {
      if tree.childNode[i] != null {
        return true;
      }
    }
    return false;
  }

  /** findDNA: the search described by Tree.Find, on the nodes themselves. */
  method FindDNA(nucleotide: string, tree: Node?) returns (found: bool)
    requires ValidOrNull(tree)
    ensures found == Find(nucleotide, ModelOf(tree))
    decreases ReprOf(tree)
  {
    if tree == null || InvalidBaseFound(nucleotide) {
      return false;
    }
    var prefixLen := CommonPrefixWith(nucleotide, tree);
    if prefixLen == 0 {
      var baseIndex := Index(nucleotide[0]);
      found := FindDNA(nucleotide, tree.childNode[baseIndex]);
    } else if prefixLen == |tree.prefixCode| {
      if prefixLen == |nucleotide| {
        found := tree.endOfDna;
      } else {
        var suffix := nucleotide[prefixLen..];
        var index := Index(suffix[0]);
        found := FindDNA(suffix, tree.childNode[index]);
      }
    } else {
      found := false;
    }
  }

  /** countNodes(tree, totalSoFar): the loop adds countNodes(child, 1) for every
      occupied slot. */
  method CountNodes(tree: Node?, totalSoFar: int) returns (total: int)
    requires ValidOrNull(tree)
    ensures total == TreeModel.CountNodes(ModelOf(tree), totalSoFar)
    decreases ReprOf(tree)
  {
    if tree == null {
      return 0;
    }
    var hasChild := HasAChild(tree);
    if !hasChild {
      return 1;
    }
    total := totalSoFar;
    for i := 0 to MaxChildren
      invariant total == totalSoFar + CountNodesUpTo(tree.Model, i)
    {
      var currentTotal := 0;
      if tree.childNode[i] != null {
        currentTotal := currentTotal + 1;
        var subtotal := CountNodes(tree.childNode[i], currentTotal);
        total := total + subtotal;
      }
    }
  }

  /** countStrings(tree, totalSoFar): the loop adds, for every slot, the counter
      of an end-marked child plus what that child's own loop adds. */
  method CountStrings(tree: Node?, totalSoFar: int) returns (total: int)
    requires ValidOrNull(tree)
    ensures total == TreeModel.CountStrings(ModelOf(tree), totalSoFar)
    decreases ReprOf(tree)
  {
    if tree == null {
      return 0;
    }
    total := totalSoFar;
    for i := 0 to MaxChildren
      invariant total == totalSoFar + CountStringsUpTo(tree.Model, i)
    {
      var currentTotal := 0;
      var child := tree.childNode[i];
      if child != null && child.endOfDna {
        currentTotal := currentTotal + child.countOfDna;
      }
      var subtotal := CountStrings(child, currentTotal);
      total := total + subtotal;
    }
  }

  /** countUniqueStrings(tree, totalSoFar): the loop adds, for every slot, 1 for an
      end-marked child plus what that child's own loop adds. */
  method CountUniqueStrings(tree: Node?, totalSoFar: int) returns (total: int)
    requires ValidOrNull(tree)
    ensures total == TreeModel.CountUniqueStrings(ModelOf(tree), totalSoFar)
    decreases ReprOf(tree)
  {
    if tree == null {
      return 0;
    }
    total := totalSoFar;
    for i := 0 to MaxChildren
      invariant total == totalSoFar + CountUniqueUpTo(tree.Model, i)
    {
      var currentTotal := 0;
      var child := tree.childNode[i];
      if child != null && child.endOfDna {
        currentTotal := currentTotal + 1;
      }
      var subtotal := CountUniqueStrings(child, currentTotal);
      total := total + subtotal;
    }
  }

  /** gatherStrings(tree, dnaSegment, dnaStrings): appends `dnaSegment` when the
      node is an end marker, then the strings of every occupied slot, slot 0
      first, each below `dnaSegment` extended by the child's segment. The list
      the source appends to in place is passed in and handed back. */
  method GatherStrings(tree: Node?, dnaSegment: string, dnaStrings: seq<string>) returns (list: seq<string>)
    requires ValidOrNull(tree)
    ensures list == dnaStrings + TreeModel.GatherStrings(ModelOf(tree), dnaSegment)
    decreases ReprOf(tree)
  {
    if tree == null {
      return dnaStrings;
    }
    list := dnaStrings;
    if tree.endOfDna {
      list := list + [dnaSegment];
    }
    ghost var own := if tree.endOfDna then [dnaSegment] else [];
    for i := 0 to MaxChildren
      invariant list == dnaStrings + own + GatherUpTo(tree.Model, dnaSegment, i)
    {
      var child := tree.childNode[i];
      if child != null {
        var currentSegment := dnaSegment + child.prefixCode;
        list := GatherStrings(child, currentSegment, list);
      }
    }
  }

  /** deleteNode: the node gets the empty segment, no end marker and counter 0;
      every child it still holds is wiped the same way and its slot emptied. The
      node itself stays wherever its parent holds it. */
  method DeleteNode(tree: Node)
    requires tree.Valid()
    modifies tree.Repr
    ensures tree.Valid() && tree.Repr == old(tree.Repr)
    ensures tree.Model == TreeModel.DeleteNode(old(tree.Model))
    ensures forall k | 0 <= k < MaxChildren && old(tree.childNode[k]) != null ::
      var child := old(tree.childNode[k]);
      child.prefixCode == "" && !child.endOfDna && child.countOfDna == 0
  {
    tree.prefixCode := "";
    tree.endOfDna := false;
    tree.countOfDna := 0;
    ghost var kids := tree.childNode[..];
    for i := 0 to MaxChildren
      invariant tree.Repr == old(tree.Repr) && tree.Model == old(tree.Model)
      invariant tree.prefixCode == "" && !tree.endOfDna && tree.countOfDna == 0
      invariant forall k | 0 <= k < MaxChildren && kids[k] != null :: kids[k] in tree.Repr && kids[k] != tree
      invariant forall k | 0 <= k < i :: tree.childNode[k] == null
      invariant forall k | i <= k < MaxChildren :: tree.childNode[k] == kids[k]
      invariant forall k | 0 <= k < i && kids[k] != null ::
        kids[k].prefixCode == "" && !kids[k].endOfDna && kids[k].countOfDna == 0
    {
      var child := tree.childNode[i];
      if child != null {
        child.prefixCode := "";
        child.endOfDna := false;
        child.countOfDna := 0;
        tree.childNode[i] := null;
      }
    }
    tree.Model := Tree("", false, 0, NoChildren);
  }

  /** deleteDNA: the deletion described by Tree.Delete, on the nodes themselves;
      no node is allocated or detached from the footprint. */
  method DeleteDNA(nucleotide: string, tree: Node?) returns (deleted: bool)
    requires ValidOrNull(tree)
    modifies ReprOf(tree)
    ensures ValidOrNull(tree) && ReprOf(tree) == old(ReprOf(tree))
    ensures (ModelOf(tree), deleted) == Delete(nucleotide, old(ModelOf(tree)))
    decreases ReprOf(tree), 1
  {
    if tree == null || InvalidBaseFound(nucleotide) {
      return false;
    }
    var prefixLen := CommonPrefixWith(nucleotide, tree);
    if prefixLen == 0 {
      var baseIndex := Index(nucleotide[0]);
      deleted := DeleteInSlot(nucleotide, tree, baseIndex);
    } else if prefixLen == |tree.prefixCode| {
      if prefixLen == |nucleotide| {
        var hasChild := HasAChild(tree);
        if hasChild {
          tree.countOfDna := tree.countOfDna - 1;
          if tree.countOfDna == 0 {
            tree.endOfDna := false;
          }
          tree.Model := tree.Model.(count := tree.countOfDna, isEnd := tree.endOfDna);
        } else {
          DeleteNode(tree);
        }
        deleted := true;
      } else {
        var suffix := nucleotide[prefixLen..];
        var index := Index(suffix[0]);
        deleted := DeleteInSlot(suffix, tree, index);
      }
    } else {
      deleted := false;
    }
  }

  /** The recursive step of deleteDNA: deleteDNA(nucleotide, tree.childNode[index]).
      Only the subtree in that slot changes. */
  method DeleteInSlot(nucleotide: string, tree: Node, index: nat) returns (deleted: bool)
    requires tree.Valid() && index < MaxChildren
    modifies tree.Repr
    ensures tree.Valid() && tree.Repr == old(tree.Repr)
    ensures var (child, found) := Delete(nucleotide, old(tree.Model).children[index]);
      tree.Model == old(tree.Model).(children := old(tree.Model).children[index := child]) && deleted == found
    decreases tree.Repr, 0
  {
    var child := tree.childNode[index];
    deleted := DeleteDNA(nucleotide, child);
    tree.Model := tree.Model.(children := tree.Model.children[index := ModelOf(child)]);
    forall k | 0 <= k < MaxChildren && tree.childNode[k] != null && k != index
      ensures tree.childNode[k].Valid() && tree.childNode[k].Model == old(tree.childNode[k].Model)
      ensures tree.childNode[k].Repr == old(tree.childNode[k].Repr)
    {
      var sibling := tree.childNode[k];
      assert old(sibling.Valid()) && sibling in old(sibling.Repr);
      assert child != null ==> old(sibling.Repr) !! old(child.Repr);
    }
  }

  /** The loop both cutting cases of insertDNA share: every slot of `source` is
      copied into `target` and then emptied. */
  method MoveChildren(source: Node, target: Node)
    requires source.childNode != target.childNode
    requires source.childNode.Length == MaxChildren == target.childNode.Length
    modifies source.childNode, target.childNode
    ensures target.childNode[..] == old(source.childNode[..])
    ensures forall k | 0 <= k < MaxChildren :: source.childNode[k] == null
  {
    for i := 0 to MaxChildren
      invariant forall k | 0 <= k < i :: target.childNode[k] == old(source.childNode[k]) && source.childNode[k] == null
      invariant forall k | i <= k < MaxChildren :: source.childNode[k] == old(source.childNode[k])
    {
      target.childNode[i] := source.childNode[i];
      source.childNode[i] := null;
    }
  }

  /** The node a split pushes down: a new node with the unmatched rest of the
      segment, every child of `node` (whose slots are emptied), the end marker of
      `node` and counter `pushedCount`. */
  method PushDownNode(node: Node, matched: nat, pushedCount: int) returns (newNode: Node)
    requires node.Valid() && 0 < matched < |node.prefixCode|
    modifies node.childNode
    ensures fresh(newNode) && fresh(newNode.childNode) && newNode.Valid()
    ensures newNode.Model == PushDown(node.Model, matched, pushedCount)
    ensures newNode.Repr == {newNode, newNode.childNode} + (node.Repr - {node, node.childNode})
    ensures forall k | 0 <= k < MaxChildren :: node.childNode[k] == null
  {
    var suffix := node.prefixCode[matched..];
    assert AllBases(suffix) by {
      forall i | 0 <= i < |suffix| ensures IsBase(suffix[i]) {
        assert suffix[i] == node.prefixCode[matched + i];
      }
    }
    ghost var kids := node.childNode[..];
    newNode := new Node();
    MoveChildren(node, newNode);
    forall k | 0 <= k < MaxChildren && kids[k] != null
      ensures kids[k].Valid() && kids[k].Model == old(kids[k].Model) && kids[k].Repr == old(kids[k].Repr)
      ensures kids[k].Repr <= old(node.Repr) && node !in kids[k].Repr && node.childNode !in kids[k].Repr
      ensures newNode !in kids[k].Repr && newNode.childNode !in kids[k].Repr
    {
      assert old(kids[k].Valid());
    }
    newNode.prefixCode := suffix;
    newNode.countOfDna := pushedCount;
    newNode.endOfDna := node.endOfDna;
    newNode.Model := PushDown(node.Model, matched, pushedCount);
    newNode.Repr := newNode.Repr + (node.Repr - {node, node.childNode});
    assert forall k | 0 <= k < MaxChildren :: newNode.childNode[k] == kids[k];
    assert Shaped(newNode.Model);
  }

  /** The split both cutting cases of insertDNA perform: the pushed-down node
      becomes the only child, in the slot of its first base, and the node keeps
      `prefix`, `isEnd` and `count`. */
  method Split(node: Node, matched: nat, prefix: string, isEnd: bool, count: int, pushedCount: int)
    requires node.Valid() && 0 < matched < |node.prefixCode| && AllBases(prefix)
    modifies node, node.childNode
    ensures node.Valid() && old(node.Repr) <= node.Repr && fresh(node.Repr - old(node.Repr))
    ensures node.Model == Tree(prefix, isEnd, count, OnlyChild(PushDown(old(node.Model), matched, pushedCount)))
  {
    var newNode := PushDownNode(node, matched, pushedCount);
    var index := Index(newNode.prefixCode[0]);
    node.childNode[index] := newNode;
    node.prefixCode := prefix;
    node.endOfDna := isEnd;
    node.countOfDna := count;
    node.Model := Tree(prefix, isEnd, count, OnlyChild(newNode.Model));
    node.Repr := node.Repr + newNode.Repr;
    assert forall k | 0 <= k < MaxChildren :: (node.childNode[k] == null) == (k != index);
    assert node !in newNode.Repr && node.childNode !in newNode.Repr;
  }

  /** insertDNA(nucleotide, root): the insertion described by Tree.Insert, on the
      nodes themselves. The slot of the first base receives a new leaf when its
      node shares no prefix with the input; otherwise that node is updated in
      place. */
  method InsertDNA(nucleotide: string, root: Node)
    requires root.Valid()
    modifies root.Repr
    ensures root.Valid() && old(root.Repr) <= root.Repr && fresh(root.Repr - old(root.Repr))
    ensures root.Model == Insert(old(root.Model), nucleotide)
    decreases |nucleotide|, 2
  {
    if InvalidBaseFound(nucleotide) {
      return;
    }
    var index := Index(nucleotide[0]);
    var currentNode := root.childNode[index];
    var prefixLen := PrefixCodeLength(currentNode);
    var dnaBasesMatched := CommonPrefixWith(nucleotide, currentNode);
    if dnaBasesMatched == 0 {
      var tmpNode := NewLeaf(nucleotide);
      AttachChild(root, index, tmpNode);
    } else {
      InsertInChild(nucleotide, root, index, dnaBasesMatched, prefixLen);
    }
  }

  /** root.childNode[index] = tmpNode, for a new node. */
  method AttachChild(root: Node, index: nat, tmpNode: Node)
    requires root.Valid() && index < MaxChildren && tmpNode.Valid() && tmpNode.Repr !! root.Repr
    requires |tmpNode.prefixCode| > 0 && tmpNode.prefixCode[0] == Bases[index]
    modifies root, root.childNode
    ensures root.Valid() && root.Repr == old(root.Repr) + tmpNode.Repr
    ensures root.Model == old(root.Model).(children := old(root.Model).children[index := Some(tmpNode.Model)])
  {
    root.childNode[index] := tmpNode;
    root.Repr := root.Repr + tmpNode.Repr;
    root.Model := root.Model.(children := root.Model.children[index := Some(tmpNode.Model)]);
    forall k | 0 <= k < MaxChildren && root.childNode[k] != null && k != index
      ensures root.childNode[k].Valid() && root.childNode[k].Model == old(root.childNode[k].Model)
      ensures root.childNode[k].Repr == old(root.childNode[k].Repr)
      ensures root.childNode[k].Repr !! tmpNode.Repr
    {
      assert old(root.childNode[k].Valid());
    }
  }

  /** The node in root.childNode[index] shares a prefix with the input: it is
      updated in place, and only what that slot owns changes. */
  method InsertInChild(nucleotide: string, root: Node, index: nat, dnaBasesMatched: nat, prefixLen: nat)
    requires root.Valid() && index < MaxChildren && IsDna(nucleotide) && nucleotide[0] == Bases[index]
    requires root.childNode[index] != null
    requires dnaBasesMatched == CommonPrefixLength(nucleotide, root.childNode[index].prefixCode) > 0
    requires prefixLen == |root.childNode[index].prefixCode|
    modifies root.Repr
    ensures root.Valid() && old(root.Repr) <= root.Repr && fresh(root.Repr - old(root.Repr))
    ensures root.Model == old(root.Model).(children := old(root.Model).children[index := Some(InsertAt(old(root.Model).children[index], nucleotide))])
    decreases |nucleotide|, 1
  {
    var currentNode := root.childNode[index];
    InsertAtNode(nucleotide, currentNode, dnaBasesMatched, prefixLen);
    root.Repr := root.Repr + currentNode.Repr;
    root.Model := root.Model.(children := root.Model.children[index := Some(currentNode.Model)]);
    forall k | 0 <= k < MaxChildren && root.childNode[k] != null && k != index
      ensures root.childNode[k].Valid() && root.childNode[k].Model == old(root.childNode[k].Model)
      ensures root.childNode[k].Repr == old(root.childNode[k].Repr)
      ensures root.childNode[k].Repr !! currentNode.Repr
    {
      var sibling := root.childNode[k];
      assert old(sibling.Valid()) && sibling in old(sibling.Repr);
      assert old(sibling.Repr) !! old(currentNode.Repr);
    }
    assert root !in currentNode.Repr && root.childNode !in currentNode.Repr;
  }

  /** The node insertDNA attaches when no node shares a prefix with the input: an
      end marker for the whole input, counter 1, no children. */
  method NewLeaf(nucleotide: string) returns (tmpNode: Node)
    requires AllBases(nucleotide)
    ensures tmpNode.Valid() && fresh(tmpNode.Repr)
    ensures tmpNode.Model == Leaf(nucleotide)
  {
    tmpNode := new Node();
    tmpNode.prefixCode := nucleotide;
    tmpNode.endOfDna := true;
    tmpNode.countOfDna := tmpNode.countOfDna + 1;
    tmpNode.Model := Leaf(nucleotide);
  }

  /** The cases of insertDNA where the node in the slot shares a prefix with the
      input: an exact match marks the node; an input that ends inside the segment
      splits it and takes the upper half; an input that leaves the segment splits
      it where they part (when they part inside it) and is inserted below. */
  method InsertAtNode(nucleotide: string, currentNode: Node, dnaBasesMatched: nat, prefixLen: nat)
    requires currentNode.Valid() && IsDna(nucleotide)
    requires dnaBasesMatched == CommonPrefixLength(nucleotide, currentNode.prefixCode) > 0
    requires prefixLen == |currentNode.prefixCode|
    modifies currentNode.Repr
    ensures currentNode.Valid() && old(currentNode.Repr) <= currentNode.Repr
    ensures fresh(currentNode.Repr - old(currentNode.Repr))
    ensures currentNode.Model == InsertAt(Some(old(currentNode.Model)), nucleotide)
    decreases |nucleotide|, 0
  {
    var dnaLen := |nucleotide|;
    if dnaBasesMatched == dnaLen {
      if dnaLen == prefixLen {
        currentNode.endOfDna := true;
        currentNode.countOfDna := currentNode.countOfDna + 1;
        currentNode.Model := currentNode.Model.(isEnd := true, count := currentNode.countOfDna);
      } else if prefixLen > dnaBasesMatched {
        Split(currentNode, dnaBasesMatched, nucleotide, true, 1, currentNode.countOfDna);
      }
    } else {
      if dnaBasesMatched < prefixLen {
        assert AllBases(nucleotide[..dnaBasesMatched]) by {
          forall i | 0 <= i < dnaBasesMatched ensures IsBase(nucleotide[..dnaBasesMatched][i]) {
            assert nucleotide[..dnaBasesMatched][i] == nucleotide[i];
          }
        }
        Split(currentNode, dnaBasesMatched, nucleotide[..dnaBasesMatched], false, 0,
          if currentNode.endOfDna then currentNode.countOfDna else 1);
      }
      var suffix := nucleotide[dnaBasesMatched..];
      InsertDNA(suffix, currentNode);
    }
  }
}
