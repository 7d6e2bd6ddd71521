/** What deleteDNA does to the counters countStrings and countUniqueStrings read,
    and how it undoes a fresh insertDNA on them. */
module DeleteCounts {
  import opened Dna
  import opened TreeModel
  import opened Order
  import opened Lookup
  import opened Insertion
  import opened InsertCounts
  import opened Deletion

  /** What countStrings loses when deleteDNA acts on the node `n` it reaches
      exactly: an end marker with children loses one from its counter (its last
      one when the counter was 1), a childless end marker is wiped with its whole
      counter, and a node that is not an end marker counts nothing before or
      after. */
  function TotalDrop(n: Option<Tree>): int
    requires ShapedSlot(n)
  {
    if n.Some? && n.value.isEnd then (if HasAChild(n.value) then 1 else n.value.count) else 0
  }

  /** deleteDNA on the subtree in slot `k`: countStrings drops by TotalDrop of the
      node reached, and countUniqueStrings drops by one exactly when the input was
      found and does not remain findable. */
  lemma {:induction false} DeleteAtCounts(o: Option<Tree>, k: nat, dna: string)
    requires SlotOk(o, k) && k < MaxChildren && IsDna(dna) && dna[0] == Bases[k]
    ensures SlotTotal(Delete(dna, o).0) == SlotTotal(o) - TotalDrop(Reach(dna, o))
    ensures SlotUnique(Delete(dna, o).0) ==
      SlotUnique(o) - (if Find(dna, o) && !Remains(Reach(dna, o)) then 1 else 0)
    decreases o
  {
    if o.Some? {
      var c := o.value;
      var p := c.prefix;
      var m := CommonPrefixLength(dna, p);
      if Wiped(c) {
        assert Delete(dna, o) == (o, false);
        assert Reach(dna, o) == Reach(dna, c.children[Index(dna[0])]);
      } else {
        CommonPrefixAtLeastOne(dna, p);
        if m == |p| && m == |dna| {
          assert dna == p by {
            assert dna[..|dna|] == dna && p[..|p|] == p;
          }
          assert Reach(dna, o) == o;
          DeleteExactCounts(c, dna);
        } else if m == |p| {
          var idx := Index(dna[m]);
          var rest := dna[m..];
          SuffixIsDna(dna, m);
          DeleteAtCounts(c.children[idx], idx, rest);
          var (child, found) := Delete(rest, c.children[idx]);
          var r := c.(children := c.children[idx := child]);
          assert Delete(dna, o) == (Some(r), found);
          assert Reach(dna, o) == Reach(rest, c.children[idx]);
          CountsReplaceSlot(c, r, idx, MaxChildren);
        } else {
          assert Delete(dna, o) == (o, false);
          assert Reach(dna, o) == None;
        }
      }
    }
  }

  /** The exact-match case of DeleteAtCounts. */
  lemma DeleteExactCounts(c: Tree, dna: string)
    requires Shaped(c) && IsDna(dna) && dna == c.prefix
    ensures Delete(dna, Some(c)).0.Some?
    ensures SlotTotal(Delete(dna, Some(c)).0) == SlotTotal(Some(c)) - TotalDrop(Some(c))
    ensures SlotUnique(Delete(dna, Some(c)).0) ==
      SlotUnique(Some(c)) - (if c.isEnd && !Remains(Some(c)) then 1 else 0)
  {
    CommonPrefixLengthUnique(dna, c.prefix, |dna|);
    if HasAChild(c) {
      DeleteBranchCounts(c, dna);
    } else {
      DeleteLeafCounts(c, dna);
    }
  }

  /** At a node with children one occurrence goes: countStrings loses 1 from an
      end marker, and countUniqueStrings loses the node when its counter was 1. */
  lemma DeleteBranchCounts(c: Tree, dna: string)
    requires Shaped(c) && IsDna(dna) && dna == c.prefix && HasAChild(c)
    requires CommonPrefixLength(dna, c.prefix) == |dna|
    ensures Delete(dna, Some(c)).0.Some?
    ensures SlotTotal(Delete(dna, Some(c)).0) == SlotTotal(Some(c)) - TotalDrop(Some(c))
    ensures SlotUnique(Delete(dna, Some(c)).0) ==
      SlotUnique(Some(c)) - (if c.isEnd && !Remains(Some(c)) then 1 else 0)
  {
    var count := c.count - 1;
    var r := c.(count := count, isEnd := if count == 0 then false else c.isEnd);
    assert Delete(dna, Some(c)).0 == Some(r);
    CountsUpToSlots(r, c, MaxChildren);
    assert SlotTotal(Some(r)) == EndCount(Some(r)) + CountStringsUpTo(r, MaxChildren);
    assert SlotTotal(Some(c)) == EndCount(Some(c)) + CountStringsUpTo(c, MaxChildren);
    assert SlotUnique(Some(r)) == EndMark(Some(r)) + CountUniqueUpTo(r, MaxChildren);
    assert SlotUnique(Some(c)) == EndMark(Some(c)) + CountUniqueUpTo(c, MaxChildren);
  }

  /** A childless node is wiped, and its whole counter goes with it. */
  lemma DeleteLeafCounts(c: Tree, dna: string)
    requires Shaped(c) && IsDna(dna) && dna == c.prefix && !HasAChild(c)
    requires CommonPrefixLength(dna, c.prefix) == |dna|
    ensures Delete(dna, Some(c)).0.Some?
    ensures SlotTotal(Delete(dna, Some(c)).0) == SlotTotal(Some(c)) - TotalDrop(Some(c))
    ensures SlotUnique(Delete(dna, Some(c)).0) ==
      SlotUnique(Some(c)) - (if c.isEnd && !Remains(Some(c)) then 1 else 0)
  {
    var r := DeleteNode(c);
    assert Delete(dna, Some(c)).0 == Some(r);
    ChildlessIsEmpty(c);
    NoChildrenCounts(c);
    NoChildrenCounts(r);
  }

  /** deleteDNA(dna, root) from the root of a well-formed tree: countStrings(root, 0)
      drops by TotalDrop of the node the input reaches exactly, and
      countUniqueStrings(root, 0) drops by one exactly when findDNA was true before
      and is false after. */
  lemma DeleteCountsFromRoot(root: Tree, dna: string)
    requires WellFormed(root) && IsDna(dna)
    ensures CountStrings(Delete(dna, Some(root)).0, 0) ==
      CountStrings(Some(root), 0) - TotalDrop(Reach(dna, Some(root)))
    ensures CountUniqueStrings(Delete(dna, Some(root)).0, 0) ==
      CountUniqueStrings(Some(root), 0) -
      (if Find(dna, Some(root)) && !Find(dna, Delete(dna, Some(root)).0) then 1 else 0)
  {
    CommonPrefixLengthUnique(dna, root.prefix, 0);
    var k := Index(dna[0]);
    DeleteAtCounts(root.children[k], k, dna);
    DeleteFromRoot(root, dna);
    var (child, found) := Delete(dna, root.children[k]);
    var r := root.(children := root.children[k := child]);
    assert Delete(dna, Some(root)) == (Some(r), found);
    assert Reach(dna, Some(root)) == Reach(dna, root.children[k]);
    CountsReplaceSlot(root, r, k, MaxChildren);
  }

  /** insertDNA followed by deleteDNA of a sequence that was not stored, and that
      does not land exactly on a non-end node with a nonzero counter, gives back
      countStrings and countUniqueStrings as they were. */
  lemma DeleteUndoesInsertCounts(root: Tree, dna: string)
    requires WellFormed(root) && IsDna(dna) && !Find(dna, Some(root)) && Hidden(dna, Some(root)) == 0
    ensures CountStrings(Delete(dna, Some(Insert(root, dna))).0, 0) == CountStrings(Some(root), 0)
    ensures CountUniqueStrings(Delete(dna, Some(Insert(root, dna))).0, 0) == CountUniqueStrings(Some(root), 0)
  {
    InsertCountsFromRoot(root, dna);
    InsertStoresExactly(root, dna);
    var ins := Insert(root, dna);
    DeleteCountsFromRoot(ins, dna);
    var k := Index(dna[0]);
    CommonPrefixLengthUnique(dna, root.prefix, 0);
    InsertAtReach(root.children[k], k, dna);
    assert ins.children[k] == Some(InsertAt(root.children[k], dna));
    assert Reach(dna, Some(ins)) == Reach(dna, ins.children[k]);
    assert Reach(dna, Some(root)) == Reach(dna, root.children[k]);
    DeleteFromRoot(ins, dna);
  }
}
