/** Worked examples, evaluated on the model, of behaviour of the source that a
    reader might not expect: the counter a divergence split gives a non-end
    node, and deleteDNA's answer on a node that is not an end marker. */
module Quirks {
  import opened Dna
  import opened TreeModel
  import opened Order
  import opened Lookup
  import opened InsertCounts
  import opened Insertion

  /** The dummy root of a new tree: empty segment, no end marker, counter 0. */
  const EmptyRoot: Tree := Tree("", false, 0, NoChildren)

  /** The tree after inserting AAAGC then AAACC: the split at AAA leaves a node
      that is not an end marker, with CC and GC below it. */
  const SplitAAA: Tree := Tree("AAA", false, 0, [None, Some(Leaf("CC")), Some(Leaf("GC")), None])
  const TwoInserted: Tree := Tree("", false, 0, [Some(SplitAAA), None, None, None])

  lemma TwoInsertsShape()
    ensures Insert(Insert(EmptyRoot, "AAAGC"), "AAACC") == TwoInserted
  {
    var t1 := Insert(EmptyRoot, "AAAGC");
    assert CommonPrefixLength("AAAGC", "") == 0;
    assert t1 == Tree("", false, 0, [Some(Leaf("AAAGC")), None, None, None]);
    assert CommonPrefixLength("AAACC", "AAAGC") == 3;
    assert "AAACC"[3..] == "CC" && "AAAGC"[3..] == "GC" && "AAACC"[..3] == "AAA";
    assert Index('G') == 2 && Index('C') == 1 && Index('A') == 0;
    assert PushDown(Leaf("AAAGC"), 3, 1) == Leaf("GC");
    var split := Tree("AAA", false, 0, OnlyChild(Leaf("GC")));
    assert OnlyChild(Leaf("GC")) == [None, None, Some(Leaf("GC")), None];
    assert InsertAt(None, "CC") == Leaf("CC");
    assert Insert(split, "CC") == SplitAAA;
    assert InsertAt(Some(Leaf("AAAGC")), "AAACC") == SplitAAA;
  }

  /** TwoInserted after deleteDNA of AAA: the split node's counter is -1. */
  const DeletedTwo: Tree := Tree("", false, 0, [Some(SplitAAA.(count := -1)), None, None, None])

  /** In TwoInserted, and after the delete, find for AAA stops exactly at the
      split node, which is not an end marker. */
  lemma TwoInsertedReach()
    ensures Reach("AAA", Some(TwoInserted)) == Some(SplitAAA)
    ensures Reach("AAA", Some(DeletedTwo)) == Some(SplitAAA.(count := -1))
  {
    assert Index('A') == 0;
    assert CommonPrefixLength("AAA", "") == 0 && CommonPrefixLength("AAA", "AAA") == 3;
    assert IsDna("AAA");
    assert Reach("AAA", Some(SplitAAA)) == Some(SplitAAA);
    assert Reach("AAA", Some(SplitAAA.(count := -1))) == Some(SplitAAA.(count := -1));
    assert "AAA"[0] == 'A' && DeletedTwo.children[0] == Some(SplitAAA.(count := -1));
    assert Reach("AAA", Some(DeletedTwo)) == Reach("AAA", DeletedTwo.children[0]);
  }

  lemma TwoInsertedDelete()
    ensures Delete("AAA", Some(TwoInserted)) == (Some(DeletedTwo), true)
  {
    assert Index('A') == 0;
    assert CommonPrefixLength("AAA", "") == 0 && CommonPrefixLength("AAA", "AAA") == 3;
    assert IsDna("AAA");
    assert SplitAAA.children[1].Some?;
    assert Delete("AAA", Some(SplitAAA)) == (Some(SplitAAA.(count := -1)), true);
    assert "AAA"[0] == 'A' && TwoInserted.children[0] == Some(SplitAAA);
    assert TwoInserted.children[0 := Some(SplitAAA.(count := -1))] == DeletedTwo.children;
  }

  /** deleteDNA of AAA still answers true on the split node, drives its counter
      to -1, and AAA stays unfound. */
  lemma BranchDeleteAnswersTrue()
    ensures var t := Insert(Insert(EmptyRoot, "AAAGC"), "AAACC");
      !Find("AAA", Some(t)) && Delete("AAA", Some(t)) == (Some(DeletedTwo), true) &&
      !Find("AAA", Delete("AAA", Some(t)).0)
  {
    TwoInsertsShape();
    TwoInsertedReach();
    TwoInsertedDelete();
  }

  /** The tree after inserting AAAGC, AAACC and AT: root, A, then the pushed-down
      AA (not an end marker, counter 1) with CC and GC below it, and T beside it. */
  const PushedAA: Tree := Tree("AA", false, 1, [None, Some(Leaf("CC")), Some(Leaf("GC")), None])
  const ThreeInserted: Tree :=
    Tree("", false, 0, [Some(Tree("A", false, 0, [Some(PushedAA), None, None, Some(Leaf("T"))])), None, None, None])

  lemma ThirdInsertShape()
    ensures Insert(TwoInserted, "AT") == ThreeInserted
  {
    assert Index('A') == 0 && Index('T') == 3;
    assert CommonPrefixLength("AT", "AAA") == 1;
    assert "AT"[1..] == "T" && "AAA"[1..] == "AA" && "AT"[..1] == "A";
    assert PushDown(SplitAAA, 1, 1) == PushedAA;
    var split2 := Tree("A", false, 0, OnlyChild(PushedAA));
    assert OnlyChild(PushedAA) == [Some(PushedAA), None, None, None];
    assert InsertAt(None, "T") == Leaf("T");
    assert InsertAt(Some(SplitAAA), "AT") == Insert(split2, "T");
    assert Insert(split2, "T") == Tree("A", false, 0, [Some(PushedAA), None, None, Some(Leaf("T"))]);
  }

  lemma ThreeInsertsShape()
    ensures Insert(Insert(Insert(EmptyRoot, "AAAGC"), "AAACC"), "AT") == ThreeInserted
  {
    TwoInsertsShape();
    ThirdInsertShape();
  }

  lemma ThreeInsertedWellFormed()
    ensures WellFormed(ThreeInserted)
  {
    var t1 := Insert(EmptyRoot, "AAAGC");
    var t2 := Insert(t1, "AAACC");
    InsertStoresExactly(EmptyRoot, "AAAGC");
    InsertStoresExactly(t1, "AAACC");
    InsertStoresExactly(t2, "AT");
    ThreeInsertsShape();
  }

  /** ThreeInserted after inserting AAA: the node AA becomes an end marker with
      counter 2. */
  const MarkedAA: Tree := PushedAA.(isEnd := true, count := 2)
  const FourInserted: Tree :=
    Tree("", false, 0, [Some(Tree("A", false, 0, [Some(MarkedAA), None, None, Some(Leaf("T"))])), None, None, None])

  lemma FourthInsertShape()
    ensures Insert(ThreeInserted, "AAA") == FourInserted
  {
    assert Index('A') == 0;
    assert CommonPrefixLength("AAA", "A") == 1 && "AAA"[1..] == "AA";
    assert CommonPrefixLength("AA", "AA") == 2;
    assert IsDna("AAA") && IsDna("AA") && "AAA"[1] == 'A';
    assert InsertAt(Some(PushedAA), "AA") == MarkedAA;
    var nodeA := ThreeInserted.children[0].value;
    assert InsertAt(Some(nodeA), "AAA") == Insert(nodeA, "AA");
    assert Insert(nodeA, "AA") == Tree("A", false, 0, [Some(MarkedAA), None, None, Some(Leaf("T"))]);
  }

  /** In ThreeInserted, find for AAA stops exactly at the pushed-down AA node. */
  lemma ThreeInsertedReach()
    ensures Reach("AAA", Some(ThreeInserted)) == Some(PushedAA)
  {
    assert Index('A') == 0;
    assert CommonPrefixLength("AAA", "") == 0;
    assert CommonPrefixLength("AAA", "A") == 1 && "AAA"[1..] == "AA";
    assert CommonPrefixLength("AA", "AA") == 2;
    assert IsDna("AAA") && IsDna("AA") && "AAA"[1] == 'A';
    assert Reach("AA", Some(PushedAA)) == Some(PushedAA);
    assert Reach("AAA", Some(ThreeInserted.children[0].value)) == Some(PushedAA);
  }

  /** One deleteDNA of AAA on FourInserted leaves AAA findable. */
  lemma FourInsertedKeepsAAA()
    ensures Find("AAA", Delete("AAA", Some(FourInserted)).0)
  {
    assert Index('A') == 0;
    assert CommonPrefixLength("AAA", "") == 0;
    assert CommonPrefixLength("AAA", "A") == 1 && "AAA"[1..] == "AA";
    assert CommonPrefixLength("AA", "AA") == 2;
    assert IsDna("AAA") && IsDna("AA") && "AAA"[1] == 'A';
    assert MarkedAA.children[1].Some?;
    assert Delete("AA", Some(MarkedAA)) == (Some(MarkedAA.(count := 1)), true);
  }

  /** Inserting AAAGC, AAACC and AT leaves the non-end node for AAA with counter 1;
      inserting AAA then adds 2 to countStrings, and one deleteDNA of AAA leaves
      it findable. */
  lemma DivergeSplitCounter()
    ensures var t := Insert(Insert(Insert(EmptyRoot, "AAAGC"), "AAACC"), "AT");
      !Find("AAA", Some(t)) && Hidden("AAA", Some(t)) == 1 &&
      CountStrings(Some(Insert(t, "AAA")), 0) == CountStrings(Some(t), 0) + 2 &&
      Find("AAA", Delete("AAA", Some(Insert(t, "AAA"))).0)
  {
    ThreeInsertsShape();
    ThreeInsertedWellFormed();
    FourthInsertShape();
    ThreeInsertedReach();
    FourInsertedKeepsAAA();
    assert IsDna("AAA");
    InsertCountsFromRoot(ThreeInserted, "AAA");
  }
}
