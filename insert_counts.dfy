/** What insertDNA does to the counters countStrings and countUniqueStrings read. */
module InsertCounts {
  import opened Dna
  import opened TreeModel
  import opened Order
  import opened Lookup
  import opened Insertion

  /** The total countStrings reports for the subtree in a slot, as its loop adds it. */
  function SlotTotal(o: Option<Tree>): int
    requires ShapedSlot(o)
  {
    CountStrings(o, EndCount(o))
  }

  /** The number countUniqueStrings reports for the subtree in a slot. */
  function SlotUnique(o: Option<Tree>): int
    requires ShapedSlot(o)
  {
    CountUniqueStrings(o, EndMark(o))
  }

  /** The counter of a node that findDNA reaches exactly but that is not an end
      marker (0 when there is none): the amount by which insertDNA overshoots. */
  function Hidden(dna: string, o: Option<Tree>): int
    requires ShapedSlot(o)
  {
    var n := Reach(dna, o);
    if n.Some? && !n.value.isEnd then n.value.count else 0
  }

  /** The traversal loops read only the child slots. */
  lemma {:induction false} CountsUpToSlots(t1: Tree, t2: Tree, i: nat)
    requires Shaped(t1) && Shaped(t2) && t1.children == t2.children && i <= MaxChildren
    ensures CountStringsUpTo(t1, i) == CountStringsUpTo(t2, i)
    ensures CountUniqueUpTo(t1, i) == CountUniqueUpTo(t2, i)
  {
    if i > 0 {
      CountsUpToSlots(t1, t2, i - 1);
    }
  }

  /** Replacing one slot changes the loops' sums by that slot's difference. */
  lemma {:induction false} CountsReplaceSlot(t1: Tree, t2: Tree, k: nat, i: nat)
    requires Shaped(t1) && Shaped(t2) && k < MaxChildren && i <= MaxChildren
    requires forall j | 0 <= j < MaxChildren && j != k :: t1.children[j] == t2.children[j]
    ensures CountStringsUpTo(t2, i) ==
      CountStringsUpTo(t1, i) + (if k < i then SlotTotal(t2.children[k]) - SlotTotal(t1.children[k]) else 0)
    ensures CountUniqueUpTo(t2, i) ==
      CountUniqueUpTo(t1, i) + (if k < i then SlotUnique(t2.children[k]) - SlotUnique(t1.children[k]) else 0)
  {
    if i > 0 {
      CountsReplaceSlot(t1, t2, k, i - 1);
    }
  }

  /** A node whose only child is `child` sums exactly that child's slot. */
  lemma OnlyChildCounts(r: Tree, child: Tree)
    requires Shaped(r) && Shaped(child) && |child.prefix| > 0 && IsBase(child.prefix[0])
    requires r.children == OnlyChild(child)
    ensures CountStringsUpTo(r, MaxChildren) == SlotTotal(Some(child))
    ensures CountUniqueUpTo(r, MaxChildren) == SlotUnique(Some(child))
  {
    var kk := Index(child.prefix[0]);
    assert CountStringsUpTo(r, 1) == (if kk == 0 then SlotTotal(Some(child)) else 0);
    assert CountStringsUpTo(r, 2) == (if kk <= 1 then SlotTotal(Some(child)) else 0);
    assert CountStringsUpTo(r, 3) == (if kk <= 2 then SlotTotal(Some(child)) else 0);
    assert CountUniqueUpTo(r, 1) == (if kk == 0 then SlotUnique(Some(child)) else 0);
    assert CountUniqueUpTo(r, 2) == (if kk <= 1 then SlotUnique(Some(child)) else 0);
    assert CountUniqueUpTo(r, 3) == (if kk <= 2 then SlotUnique(Some(child)) else 0);
  }

  /** A node without children sums nothing. */
  lemma NoChildrenCounts(r: Tree)
    requires Shaped(r) && r.children == NoChildren
    ensures CountStringsUpTo(r, MaxChildren) == 0 && CountUniqueUpTo(r, MaxChildren) == 0
  {
    assert CountStringsUpTo(r, 1) == 0 && CountUniqueUpTo(r, 1) == 0;
    assert CountStringsUpTo(r, 2) == 0 && CountUniqueUpTo(r, 2) == 0;
    assert CountStringsUpTo(r, 3) == 0 && CountUniqueUpTo(r, 3) == 0;
  }

  /** Pushing a node down keeps what its slot counts. */
  lemma PushDownCounts(c: Tree, m: nat, count: int)
    requires Ordered(c) && 0 < m < |c.prefix|
    requires EndCount(Some(PushDown(c, m, count))) == EndCount(Some(c))
    ensures Shaped(PushDown(c, m, count))
    ensures SlotTotal(Some(PushDown(c, m, count))) == SlotTotal(Some(c))
    ensures SlotUnique(Some(PushDown(c, m, count))) == SlotUnique(Some(c))
  {
    var p := c.prefix;
    var pushed := PushDown(c, m, count);
    assert AllBases(p[m..]) by {
      forall i | 0 <= i < |p[m..]| ensures IsBase(p[m..][i]) {
        assert p[m..][i] == p[m + i];
      }
    }
    CountsUpToSlots(pushed, c, MaxChildren);
  }

  /** insertDNA into slot `k`: countUniqueStrings grows by one exactly when the
      input was not found; countStrings grows by one, plus the counter of a
      non-end node the input lands on exactly. */
  lemma {:induction false} InsertAtCounts(o: Option<Tree>, k: nat, dna: string)
    requires SlotOk(o, k) && k < MaxChildren && IsDna(dna) && dna[0] == Bases[k]
    ensures SlotUnique(Some(InsertAt(o, dna))) == SlotUnique(o) + (if Find(dna, o) then 0 else 1)
    ensures SlotTotal(Some(InsertAt(o, dna))) == SlotTotal(o) + 1 + Hidden(dna, o)
    decreases |dna|, 1
  {
    var m := Matched(dna, o);
    var r := InsertAt(o, dna);
    if m == 0 {
      assert r == Leaf(dna);
      NoChildrenCounts(r);
      if o.Some? {
        var c := o.value;
        if !Wiped(c) {
          CommonPrefixAtLeastOne(dna, c.prefix);
        }
        NoChildrenCounts(c);
      }
    } else {
      var c := o.value;
      var p := c.prefix;
      assert !Wiped(c);
      if m == |dna| {
        if |dna| == |p| {
          assert r == c.(isEnd := true, count := c.count + 1);
          CountsUpToSlots(r, c, MaxChildren);
        } else {
          var pushed := PushDown(c, m, c.count);
          assert r == Tree(dna, true, 1, OnlyChild(pushed));
          PushDownCounts(c, m, c.count);
          assert IsBase(pushed.prefix[0]);
          OnlyChildCounts(r, pushed);
        }
      } else if m < |p| {
        InsertDivergeCounts(c, k, dna);
      } else {
        var rest := dna[m..];
        SuffixIsDna(dna, m);
        assert r == Insert(c, rest);
        InsertCountsBelow(c, rest);
      }
    }
  }

  /** The divergence split: the pushed-down node counts as the old node did, and
      the rest of the input lands in a fresh leaf beside it. */
  lemma {:induction false} InsertDivergeCounts(c: Tree, k: nat, dna: string)
    requires SlotOk(Some(c), k) && k < MaxChildren && IsDna(dna) && dna[0] == Bases[k]
    requires 0 < CommonPrefixLength(dna, c.prefix) < |dna| && CommonPrefixLength(dna, c.prefix) < |c.prefix|
    ensures SlotUnique(Some(InsertAt(Some(c), dna))) == SlotUnique(Some(c)) + (if Find(dna, Some(c)) then 0 else 1)
    ensures SlotTotal(Some(InsertAt(Some(c), dna))) == SlotTotal(Some(c)) + 1 + Hidden(dna, Some(c))
    decreases |dna|, 0
  {
    var m := CommonPrefixLength(dna, c.prefix);
    var p := c.prefix;
    assert !Wiped(c);
    var pushed := PushDown(c, m, if c.isEnd then c.count else 1);
    var split := Tree(dna[..m], false, 0, OnlyChild(pushed));
    var rest := dna[m..];
    SuffixIsDna(dna, m);
    assert InsertAt(Some(c), dna) == Insert(split, rest);
    assert AllBases(dna[..m]) by {
      forall i | 0 <= i < m ensures IsBase(dna[..m][i]) {
        assert dna[..m][i] == dna[i];
      }
    }
    PushDownCounts(c, m, if c.isEnd then c.count else 1);
    assert IsBase(pushed.prefix[0]);
    OnlyChildCounts(split, pushed);
    assert Index(rest[0]) != Index(pushed.prefix[0]);
    assert split.children[Index(rest[0])] == None;
    PushDownFacts(c, m, if c.isEnd then c.count else 1, "");
    OnlyChildOrdered(dna[..m], false, 0, pushed);
    InsertCountsBelow(split, rest);
  }

  /** insertDNA below a dispatching node: the loops' sums change as the slot the
      input is dispatched to does. */
  lemma {:induction false} InsertCountsBelow(t: Tree, dna: string)
    requires Ordered(t) && IsDna(dna)
    ensures var o := t.children[Index(dna[0])];
      CountUniqueUpTo(Insert(t, dna), MaxChildren) == CountUniqueUpTo(t, MaxChildren) + (if Find(dna, o) then 0 else 1) &&
      CountStringsUpTo(Insert(t, dna), MaxChildren) == CountStringsUpTo(t, MaxChildren) + 1 + Hidden(dna, o)
    decreases |dna|, 2
  {
    var k := Index(dna[0]);
    InsertAtCounts(t.children[k], k, dna);
    CountsReplaceSlot(t, Insert(t, dna), k, MaxChildren);
  }

  /** insertDNA(dna, root) from the root: countUniqueStrings(root, 0) grows by one
      exactly when findDNA(dna, root) was false; countStrings(root, 0) grows by one,
      plus the counter of a non-end node the input lands on exactly. */
  lemma InsertCountsFromRoot(root: Tree, dna: string)
    requires WellFormed(root) && IsDna(dna)
    ensures CountUniqueStrings(Some(Insert(root, dna)), 0) ==
      CountUniqueStrings(Some(root), 0) + (if Find(dna, Some(root)) then 0 else 1)
    ensures CountStrings(Some(Insert(root, dna)), 0) ==
      CountStrings(Some(root), 0) + 1 + Hidden(dna, Some(root))
  {
    InsertCountsBelow(root, dna);
    CommonPrefixLengthUnique(dna, root.prefix, 0);
  }

  /** A repeated insert keeps the unique count and adds one to the total. */
  lemma RepeatInsertCounts(root: Tree, dna: string)
    requires WellFormed(root) && Find(dna, Some(root))
    ensures CountUniqueStrings(Some(Insert(root, dna)), 0) == CountUniqueStrings(Some(root), 0)
    ensures CountStrings(Some(Insert(root, dna)), 0) == CountStrings(Some(root), 0) + 1
  {
    InsertCountsFromRoot(root, dna);
  }
}
