/** What deleteDNA does to the stored strings, to its answer, and how it undoes a
    fresh insertDNA. */
module Deletion {
  import opened Dna
  import opened TreeModel
  import opened Order
  import opened Lookup
  import opened Insertion
  import opened InsertCounts

  /** After deleteDNA, findDNA of the same input still succeeds exactly when the
      node it reached is an end marker with children whose counter was not 1. */
  predicate Remains(n: Option<Tree>)
    requires ShapedSlot(n)
  {
    n.Some? && n.value.isEnd && HasAChild(n.value) && n.value.count - 1 != 0
  }

  /** A node without an occupied slot has only empty slots. */
  lemma ChildlessIsEmpty(c: Tree)
    requires Shaped(c) && !HasAChild(c)
    ensures c.children == NoChildren
  {
  }

  /** deleteDNA on the subtree in slot `k` (input starting with the k-th base):
      the slot stays in order, it answers true exactly when the input reaches a
      node exactly, no string other than `seg + dna` changes, and `seg + dna`
      stays listed only in the case `Remains` names. */
  lemma {:induction false} DeleteInSlot(o: Option<Tree>, k: nat, dna: string, seg: string)
    requires SlotOk(o, k) && k < MaxChildren && IsDna(dna) && dna[0] == Bases[k]
    ensures SlotOk(Delete(dna, o).0, k)
    ensures Delete(dna, o).1 <==> Reach(dna, o).Some?
    ensures forall w :: w != seg + dna ==> (w in GatherSlot(Delete(dna, o).0, seg) <==> w in GatherSlot(o, seg))
    ensures Find(dna, Delete(dna, o).0) <==> Remains(Reach(dna, o))
    decreases o
  {
    if o.Some? {
      var c := o.value;
      var p := c.prefix;
      var m := CommonPrefixLength(dna, p);
      if Wiped(c) {
        assert Delete(dna, o) == (o, false);
      } else {
        CommonPrefixAtLeastOne(dna, p);
        if m == |p| && m == |dna| {
          DeleteExact(c, k, dna, seg);
        } else if m == |p| {
          var idx := Index(dna[m]);
          var rest := dna[m..];
          SuffixIsDna(dna, m);
          DeleteInSlot(c.children[idx], idx, rest, seg + p);
          DeleteDescend(c, k, dna, seg);
        } else {
          assert Delete(dna, o) == (o, false);
        }
      }
    }
  }

  /** The exact-match case of deleteDNA. */
  lemma DeleteExact(c: Tree, k: nat, dna: string, seg: string)
    requires SlotOk(Some(c), k) && k < MaxChildren && IsDna(dna) && dna[0] == Bases[k]
    requires !Wiped(c) && CommonPrefixLength(dna, c.prefix) == |c.prefix| == |dna|
    ensures SlotOk(Delete(dna, Some(c)).0, k)
    ensures Delete(dna, Some(c)).1 && Reach(dna, Some(c)) == Some(c)
    ensures forall w :: w != seg + dna ==> (w in GatherSlot(Delete(dna, Some(c)).0, seg) <==> w in GatherSlot(Some(c), seg))
    ensures Find(dna, Delete(dna, Some(c)).0) <==> Remains(Some(c))
  {
    assert dna == c.prefix by {
      assert dna[..|dna|] == dna && c.prefix[..|c.prefix|] == c.prefix;
    }
    if HasAChild(c) {
      DeleteBranch(c, k, dna, seg);
    } else {
      DeleteLeaf(c, k, dna, seg);
    }
  }

  /** Exact match at a node with children: the counter drops by one and the end
      marker goes when it reaches 0. */
  lemma DeleteBranch(c: Tree, k: nat, dna: string, seg: string)
    requires SlotOk(Some(c), k) && k < MaxChildren && IsDna(dna) && dna[0] == Bases[k]
    requires !Wiped(c) && CommonPrefixLength(dna, c.prefix) == |c.prefix| == |dna| && dna == c.prefix
    requires HasAChild(c)
    ensures Delete(dna, Some(c)) ==
      (Some(c.(count := c.count - 1, isEnd := if c.count - 1 == 0 then false else c.isEnd)), true)
    ensures SlotOk(Delete(dna, Some(c)).0, k)
    ensures forall w :: w != seg + dna ==> (w in GatherSlot(Delete(dna, Some(c)).0, seg) <==> w in GatherSlot(Some(c), seg))
    ensures Find(dna, Delete(dna, Some(c)).0) <==> Remains(Some(c))
  {
    var count := c.count - 1;
    var r := c.(count := count, isEnd := if count == 0 then false else c.isEnd);
    assert Delete(dna, Some(c)) == (Some(r), true);
    GatherUpToSlots(r, c, seg + dna, MaxChildren);
  }

  /** Exact match at a childless node: deleteNode wipes it in place. */
  lemma DeleteLeaf(c: Tree, k: nat, dna: string, seg: string)
    requires SlotOk(Some(c), k) && k < MaxChildren && IsDna(dna) && dna[0] == Bases[k]
    requires !Wiped(c) && CommonPrefixLength(dna, c.prefix) == |c.prefix| == |dna| && dna == c.prefix
    requires !HasAChild(c)
    ensures Delete(dna, Some(c)) == (Some(DeleteNode(c)), true)
    ensures SlotOk(Delete(dna, Some(c)).0, k)
    ensures forall w :: w != seg + dna ==> (w in GatherSlot(Delete(dna, Some(c)).0, seg) <==> w in GatherSlot(Some(c), seg))
    ensures !Find(dna, Delete(dna, Some(c)).0)
  {
    var r := DeleteNode(c);
    assert Delete(dna, Some(c)) == (Some(r), true);
    ChildlessIsEmpty(c);
    EmptyGather(c, seg + dna);
    EmptyGather(r, seg);
    assert seg + "" == seg;
  }

  /** The case of deleteDNA that passes the rest of the input down one slot, given
      what the recursive call does to that slot. */
  lemma DeleteDescend(c: Tree, k: nat, dna: string, seg: string)
    requires SlotOk(Some(c), k) && k < MaxChildren && IsDna(dna) && dna[0] == Bases[k]
    requires !Wiped(c) && CommonPrefixLength(dna, c.prefix) == |c.prefix| < |dna|
    requires var m := |c.prefix|; var idx := Index(dna[m]); var o := c.children[idx];
      SlotOk(Delete(dna[m..], o).0, idx) &&
      (Delete(dna[m..], o).1 <==> Reach(dna[m..], o).Some?) &&
      (forall w :: w != seg + c.prefix + dna[m..] ==>
        (w in GatherSlot(Delete(dna[m..], o).0, seg + c.prefix) <==> w in GatherSlot(o, seg + c.prefix))) &&
      (Find(dna[m..], Delete(dna[m..], o).0) <==> Remains(Reach(dna[m..], o)))
    ensures SlotOk(Delete(dna, Some(c)).0, k)
    ensures Delete(dna, Some(c)).1 <==> Reach(dna, Some(c)).Some?
    ensures forall w :: w != seg + dna ==> (w in GatherSlot(Delete(dna, Some(c)).0, seg) <==> w in GatherSlot(Some(c), seg))
    ensures Find(dna, Delete(dna, Some(c)).0) <==> Remains(Reach(dna, Some(c)))
  {
    var p := c.prefix;
    var m := |p|;
    var idx := Index(dna[m]);
    var rest := dna[m..];
    var (child, found) := Delete(rest, c.children[idx]);
    var r := c.(children := c.children[idx := child]);
    assert Delete(dna, Some(c)) == (Some(r), found);
    assert Ordered(r) by {
      forall j | 0 <= j < MaxChildren ensures SlotOk(r.children[j], j) {
        if j != idx {
          assert r.children[j] == c.children[j];
        }
      }
    }
    assert seg + p + rest == seg + dna by {
      assert dna[..m] == p;
      assert p + rest == dna;
    }
    ReplaceChildGather(c, r, idx, seg, seg + dna);
  }

  /** Replacing the subtree in one slot changes the listing of the node only as
      it changes the listing of that slot. */
  lemma ReplaceChildGather(c: Tree, r: Tree, idx: nat, seg: string, x: string)
    requires Ordered(c) && Ordered(r) && idx < MaxChildren
    requires r == c.(children := c.children[idx := r.children[idx]])
    requires forall w :: w != x ==>
      (w in GatherSlot(r.children[idx], seg + c.prefix) <==> w in GatherSlot(c.children[idx], seg + c.prefix))
    ensures forall w :: w != x ==> (w in GatherSlot(Some(r), seg) <==> w in GatherSlot(Some(c), seg))
  {
    var here := seg + c.prefix;
    forall w | w != x
      ensures w in GatherSlot(Some(r), seg) <==> w in GatherSlot(Some(c), seg)
    {
      SlotOf(r, here, MaxChildren, w);
      SlotOf(c, here, MaxChildren, w);
      assert GatherSlot(Some(r), seg) == (if c.isEnd then [here] else []) + GatherUpTo(r, here, MaxChildren);
      assert GatherSlot(Some(c), seg) == (if c.isEnd then [here] else []) + GatherUpTo(c, here, MaxChildren);
    }
  }

  /** deleteDNA(dna, root) from the root of a well-formed tree: the tree stays
      well-formed, the answer is true exactly when the input reaches a node
      exactly (an end marker or not), every other string stays listed or unlisted
      as before, and `dna` itself stays findable only as `Remains` says. Invalid
      input changes nothing and answers false. */
  lemma DeleteFromRoot(root: Tree, dna: string)
    requires WellFormed(root)
    ensures Delete(dna, Some(root)).0.Some? && WellFormed(Delete(dna, Some(root)).0.value)
    ensures Delete(dna, Some(root)).1 <==> Reach(dna, Some(root)).Some?
    ensures forall w :: w != dna ==>
      (w in GatherStrings(Delete(dna, Some(root)).0, "") <==> w in GatherStrings(Some(root), ""))
    ensures Find(dna, Delete(dna, Some(root)).0) <==> Remains(Reach(dna, Some(root)))
    ensures !IsDna(dna) ==> Delete(dna, Some(root)) == (Some(root), false)
  {
    if IsDna(dna) {
      CommonPrefixLengthUnique(dna, root.prefix, 0);
      var k := Index(dna[0]);
      DeleteInSlot(root.children[k], k, dna, "");
      assert "" + dna == dna;
      var r := Delete(dna, Some(root)).0.value;
      assert r == root.(children := root.children[k := Delete(dna, root.children[k]).0]);
      assert Ordered(r) by {
        forall j | 0 <= j < MaxChildren ensures SlotOk(r.children[j], j) {
          if j != k {
            assert r.children[j] == root.children[j];
          }
        }
      }
      forall w | w != dna
        ensures w in GatherStrings(Some(r), "") <==> w in GatherStrings(Some(root), "")
      {
        SlotOf(r, "", MaxChildren, w);
        SlotOf(root, "", MaxChildren, w);
      }
    }
  }

  /** Removing a string: findDNA of any other string is unchanged, and deleteDNA
      never makes its own input findable. */
  lemma DeleteThenFind(root: Tree, dna: string, other: string)
    requires WellFormed(root)
    ensures Find(dna, Delete(dna, Some(root)).0) ==> Find(dna, Some(root))
    ensures other != dna ==> (Find(other, Delete(dna, Some(root)).0) <==> Find(other, Some(root)))
  {
    DeleteFromRoot(root, dna);
    var r := Delete(dna, Some(root)).0.value;
    FindIsListed(r, other);
    FindIsListed(root, other);
  }

  /** After insertDNA into slot `k`, findDNA's walk for the same input stops at an
      end marker whose counter is one more than that of the node it stopped at
      before (0 when there was none). */
  lemma {:induction false} InsertAtReach(o: Option<Tree>, k: nat, dna: string)
    requires SlotOk(o, k) && k < MaxChildren && IsDna(dna) && dna[0] == Bases[k]
    ensures var n := Reach(dna, Some(InsertAt(o, dna)));
      n.Some? && n.value.isEnd &&
      n.value.count == 1 + (if Reach(dna, o).Some? then Reach(dna, o).value.count else 0)
    decreases |dna|, 1
  {
    var m := Matched(dna, o);
    var r := InsertAt(o, dna);
    if m == 0 {
      CommonPrefixLengthUnique(dna, dna, |dna|);
    } else {
      var c := o.value;
      var p := c.prefix;
      assert !Wiped(c);
      if m == |dna| {
        CommonPrefixLengthUnique(dna, dna, |dna|);
        if |dna| == |p| {
          assert dna == p by {
            assert dna[..|dna|] == dna && p[..|p|] == p;
          }
        }
      } else if m < |p| {
        InsertReachDiverge(c, k, dna, m);
      } else {
        var rest := dna[m..];
        SuffixIsDna(dna, m);
        assert r == Insert(c, rest);
        var idx := Index(rest[0]);
        InsertAtReach(c.children[idx], idx, rest);
        assert r.children[idx] == Some(InsertAt(c.children[idx], rest));
      }
    }
  }

  /** The divergence split of InsertAtReach: the rest of the input goes into a
      slot of its own below the trimmed node, so find stops at a new leaf. */
  lemma InsertReachDiverge(c: Tree, k: nat, dna: string, m: nat)
    requires SlotOk(Some(c), k) && k < MaxChildren && IsDna(dna) && dna[0] == Bases[k]
    requires m == Matched(dna, Some(c)) && 0 < m < |c.prefix| && m < |dna|
    ensures var n := Reach(dna, Some(InsertAt(Some(c), dna)));
      n.Some? && n.value.isEnd && n.value.count == 1 && Reach(dna, Some(c)).None?
    decreases |dna|, 0
  {
    assert !Wiped(c);
    var r := InsertAt(Some(c), dna);
    var pushed := PushDown(c, m, if c.isEnd then c.count else 1);
    var split := Tree(dna[..m], false, 0, OnlyChild(pushed));
    var rest := dna[m..];
    SuffixIsDna(dna, m);
    assert r == Insert(split, rest);
    assert AllBases(dna[..m]) by {
      forall i | 0 <= i < m ensures IsBase(dna[..m][i]) {
        assert dna[..m][i] == dna[i];
      }
    }
    PushDownFacts(c, m, if c.isEnd then c.count else 1, "");
    var idx := Index(rest[0]);
    assert idx != Index(pushed.prefix[0]);
    assert split.children[idx] == None;
    InsertAtReach(None, idx, rest);
    CommonPrefixLengthUnique(dna, dna[..m], m);
    assert r.children[idx] == Some(InsertAt(None, rest));
  }

  /** deleteDNA undoes insertDNA of a sequence that was not stored, provided the
      input does not land exactly on a non-end node with a nonzero counter (the
      case where insertDNA overshoots): the same strings are listed again, and
      deleteDNA reports success. */
  lemma DeleteUndoesInsert(root: Tree, dna: string)
    requires WellFormed(root) && IsDna(dna) && !Find(dna, Some(root)) && Hidden(dna, Some(root)) == 0
    ensures Delete(dna, Some(Insert(root, dna))).1
    ensures forall w :: w in GatherStrings(Delete(dna, Some(Insert(root, dna))).0, "") <==> w in GatherStrings(Some(root), "")
  {
    InsertStoresExactly(root, dna);
    var ins := Insert(root, dna);
    DeleteFromRoot(ins, dna);
    var k := Index(dna[0]);
    CommonPrefixLengthUnique(dna, root.prefix, 0);
    InsertAtReach(root.children[k], k, dna);
    assert ins.children[k] == Some(InsertAt(root.children[k], dna));
    var after := Delete(dna, Some(ins)).0.value;
    FindIsListed(after, dna);
    FindIsListed(root, dna);
  }
}
