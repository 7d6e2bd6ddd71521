/** The radix tree as a value. Every operation of RadixTree.java is a function
    here; the in-place version in module RadixTree is proved to compute the same
    trees. */
module TreeModel {
  import opened Dna

  datatype Option<T> = None | Some(value: T)

  /** A node: its segment relative to the parent (`prefixCode`), the end marker
      (`endOfDNA`), the occurrence counter (`countOfDNA`) and one slot per base
      (`childNode`). An absent segment is modelled as the empty one. */
  datatype Tree = Tree(prefix: string, isEnd: bool, count: int, children: seq<Option<Tree>>)

  /** Four empty slots, as a freshly constructed node has them. */
  const NoChildren: seq<Option<Tree>> := [None, None, None, None]

  /** What the source relies on to index its arrays: four slots at every node and
      only bases in every segment. */
  predicate Shaped(t: Tree) {
    |t.children| == MaxChildren && AllBases(t.prefix) &&
    forall k | 0 <= k < MaxChildren :: t.children[k].Some? ==> Shaped(t.children[k].value)
  }

  /** The same, for a slot that may be empty. */
  predicate ShapedSlot(o: Option<Tree>) {
    o.Some? ==> Shaped(o.value)
  }

  /** prefixCodeLength: 0 for an absent node. */
  function PrefixCodeLength(node: Option<Tree>): nat {
    match node
    case None => 0
    case Some(t) => |t.prefix|
  }

  /** commonPrefixLength against a node that may be absent. */
  function Matched(dna: string, node: Option<Tree>): (m: nat)
    ensures m <= |dna| && m <= PrefixCodeLength(node)
  {
    match node
    case None => 0
    case Some(t) => CommonPrefixLength(dna, t.prefix)
  }

  /** hasAChild: some slot is occupied. */
  predicate HasAChild(t: Tree)
    requires |t.children| == MaxChildren
  {
    exists k | 0 <= k < MaxChildren :: t.children[k].Some?
  }

  /** The node insertDNA creates when no prefix matches: segment = input, an end
      marker, counter 1. */
  function Leaf(dna: string): Tree {
    Tree(dna, true, 1, NoChildren)
  }

  /** The node a split pushes one level down: the unmatched tail of `t`'s segment,
      all of `t`'s children and end marker, and the given counter. */
  function PushDown(t: Tree, m: nat, count: int): Tree
    requires m < |t.prefix|
  {
    Tree(t.prefix[m..], t.isEnd, count, t.children)
  }

  /** Slots holding only `child`, in the slot of its segment's first base. */
  function OnlyChild(child: Tree): seq<Option<Tree>>
    requires |child.prefix| > 0 && IsBase(child.prefix[0])
  {
    NoChildren[Index(child.prefix[0]) := Some(child)]
  }

  /** insertDNA(dna, root): `root` only dispatches on the first base; the node in
      that slot is replaced by the result of InsertAt. Invalid input changes
      nothing. */
  function Insert(root: Tree, dna: string): (r: Tree)
    requires Shaped(root)
    ensures Shaped(r)
    ensures r.prefix == root.prefix && r.isEnd == root.isEnd && r.count == root.count
    ensures InvalidBaseFound(dna) ==> r == root
    decreases |dna|, 1
  {
    if InvalidBaseFound(dna) then root
    else
      var index := Index(dna[0]);
      root.(children := root.children[index := Some(InsertAt(root.children[index], dna))])
  }

  /** The four cases of insertDNA for the node `current` in the dispatch slot. */
  function InsertAt(current: Option<Tree>, dna: string): (r: Tree)
    requires IsDna(dna) && ShapedSlot(current)
    ensures Shaped(r)
    decreases |dna|, 0
  {
    var prefixLen := PrefixCodeLength(current);
    var matched := Matched(dna, current);
    if matched == 0 then
      // no common prefix (or an empty slot): a new leaf takes the slot
      Leaf(dna)
    else
      var node := current.value;
      if matched == |dna| then
        if |dna| == prefixLen then
          // exact match
          node.(isEnd := true, count := node.count + 1)
        else
          // the input is a strict prefix of the segment (matched < prefixLen,
          // since matched never exceeds prefixLen)
          assert AllBases(node.prefix[matched..]) by {
            forall i | 0 <= i < |node.prefix[matched..]| ensures IsBase(node.prefix[matched..][i]) {
              assert node.prefix[matched..][i] == node.prefix[matched + i];
            }
          }
          Tree(dna, true, 1, OnlyChild(PushDown(node, matched, node.count)))
      else
        var split :=
          if matched < prefixLen then
            // divergence inside the segment: the pushed-down node gets the old
            // counter if the node was an end marker, and 1 otherwise
            assert AllBases(node.prefix[matched..]) by {
              forall i | 0 <= i < |node.prefix[matched..]| ensures IsBase(node.prefix[matched..][i]) {
                assert node.prefix[matched..][i] == node.prefix[matched + i];
              }
            }
            var pushed := PushDown(node, matched, if node.isEnd then node.count else 1);
            Tree(dna[..matched], false, 0, OnlyChild(pushed))
          else node;
        SuffixIsDna(dna, matched);
        Insert(split, dna[matched..])
  }

  /** findDNA: an absent node or invalid input finds nothing; a node with no common
      prefix (the root, or a wiped node) passes the whole input to the slot of its
      first base; a fully matched segment either ends the input (the answer is the
      end marker) or passes the rest to the slot of the next base; a segment that is
      only partly matched finds nothing. */
  function Find(dna: string, tree: Option<Tree>): bool
    requires ShapedSlot(tree)
    decreases tree
  {
    match tree
    case None => false
    case Some(t) =>
      if InvalidBaseFound(dna) then false
      else
        var matched := CommonPrefixLength(dna, t.prefix);
        if matched == 0 then Find(dna, t.children[Index(dna[0])])
        else if matched == |t.prefix| then
          if matched == |dna| then t.isEnd
          else Find(dna[matched..], t.children[Index(dna[matched])])
        else false
  }

  /** deleteNode: the node is wiped in place (empty segment, no end marker, counter
      0, no children); it stays in its parent's slot. */
  function DeleteNode(t: Tree): Tree {
    Tree("", false, 0, NoChildren)
  }

  /** deleteDNA: the updated subtree and whether the input was reported deleted. On
      an exact match a node with a child loses one from its counter (and its end
      marker when the counter reaches 0), a childless node is wiped; both report
      success. Everything else that matches passes the rest of the input down;
      a partial match reports failure. */
  function Delete(dna: string, tree: Option<Tree>): (r: (Option<Tree>, bool))
    requires ShapedSlot(tree)
    ensures r.0.Some? == tree.Some? && ShapedSlot(r.0)
    ensures !r.1 ==> r.0 == tree
    ensures r.0.Some? ==> r.0.value.prefix == tree.value.prefix || r.0.value == DeleteNode(tree.value)
    decreases tree
  {
    match tree
    case None => (None, false)
    case Some(t) =>
      if InvalidBaseFound(dna) then (tree, false)
      else
        var matched := CommonPrefixLength(dna, t.prefix);
        if matched == 0 then
          var index := Index(dna[0]);
          var (child, found) := Delete(dna, t.children[index]);
          assert !found ==> t.children[index := child] == t.children;
          (Some(t.(children := t.children[index := child])), found)
        else if matched == |t.prefix| then
          if matched == |dna| then
            if HasAChild(t) then
              var count := t.count - 1;
              (Some(t.(count := count, isEnd := if count == 0 then false else t.isEnd)), true)
            else
              (Some(DeleteNode(t)), true)
          else
            var index := Index(dna[matched]);
            var (child, found) := Delete(dna[matched..], t.children[index]);
            assert !found ==> t.children[index := child] == t.children;
            (Some(t.(children := t.children[index := child])), found)
        else (tree, false)
  }

  /** countNodes(tree, totalSoFar): an absent node counts 0, a childless node 1;
      otherwise totalSoFar plus countNodes(child, 1) over the occupied slots. */
  function CountNodes(tree: Option<Tree>, totalSoFar: int): int
    requires ShapedSlot(tree)
    decreases tree, 0
  {
    match tree
    case None => 0
    case Some(t) => if !HasAChild(t) then 1 else totalSoFar + CountNodesUpTo(t, MaxChildren)
  }

  /** What the loop of countNodes has added after the first `i` slots. */
  function CountNodesUpTo(t: Tree, i: nat): int
    requires Shaped(t) && i <= MaxChildren
    decreases t, i
  {
    if i == 0 then 0
    else
      CountNodesUpTo(t, i - 1) +
      (if t.children[i - 1].Some? then CountNodes(t.children[i - 1], 1) else 0)
  }

  /** The counter countStrings passes for a slot: the child's counter when it is
      an end marker, 0 otherwise (and for an empty slot). */
  function EndCount(o: Option<Tree>): int {
    if o.Some? && o.value.isEnd then o.value.count else 0
  }

  /** countStrings(tree, totalSoFar): totalSoFar plus, for every slot,
      countStrings(child, EndCount(child)). */
  function CountStrings(tree: Option<Tree>, totalSoFar: int): int
    requires ShapedSlot(tree)
    decreases tree, 0
  {
    match tree
    case None => 0
    case Some(t) => totalSoFar + CountStringsUpTo(t, MaxChildren)
  }

  /** What the loop of countStrings has added after the first `i` slots. */
  function CountStringsUpTo(t: Tree, i: nat): int
    requires Shaped(t) && i <= MaxChildren
    decreases t, i
  {
    if i == 0 then 0
    else CountStringsUpTo(t, i - 1) + CountStrings(t.children[i - 1], EndCount(t.children[i - 1]))
  }

  /** The counter countUniqueStrings passes for a slot: 1 for an end marker. */
  function EndMark(o: Option<Tree>): int {
    if o.Some? && o.value.isEnd then 1 else 0
  }

  /** countUniqueStrings(tree, totalSoFar): totalSoFar plus, for every slot,
      countUniqueStrings(child, EndMark(child)). */
  function CountUniqueStrings(tree: Option<Tree>, totalSoFar: int): int
    requires ShapedSlot(tree)
    decreases tree, 0
  {
    match tree
    case None => 0
    case Some(t) => totalSoFar + CountUniqueUpTo(t, MaxChildren)
  }

  /** What the loop of countUniqueStrings has added after the first `i` slots. */
  function CountUniqueUpTo(t: Tree, i: nat): int
    requires Shaped(t) && i <= MaxChildren
    decreases t, i
  {
    if i == 0 then 0
    else CountUniqueUpTo(t, i - 1) + CountUniqueStrings(t.children[i - 1], EndMark(t.children[i - 1]))
  }

  /** gatherStrings(tree, dnaSegment, list): the strings it appends to the list.
      `dnaSegment` is the root-to-node string of `tree`; an end marker contributes
      it, then every occupied slot contributes its own strings, slot 0 first. */
  function GatherStrings(tree: Option<Tree>, dnaSegment: string): seq<string>
    requires ShapedSlot(tree)
    decreases tree, 0
  {
    match tree
    case None => []
    case Some(t) => (if t.isEnd then [dnaSegment] else []) + GatherUpTo(t, dnaSegment, MaxChildren)
  }

  /** What the loop of gatherStrings has appended after the first `i` slots. */
  function GatherUpTo(t: Tree, dnaSegment: string, i: nat): seq<string>
    requires Shaped(t) && i <= MaxChildren
    decreases t, i
  {
    if i == 0 then []
    else GatherUpTo(t, dnaSegment, i - 1) + GatherSlot(t.children[i - 1], dnaSegment)
  }

  /** The strings of the subtree in one slot, below the string `dnaSegment`. */
  function GatherSlot(o: Option<Tree>, dnaSegment: string): seq<string>
    requires ShapedSlot(o)
    decreases o, 1
  {
    match o
    case None => []
    case Some(c) => GatherStrings(o, dnaSegment + c.prefix)
  }
}
