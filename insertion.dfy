/** What insertDNA does to the stored strings: on a well-formed tree it keeps the
    tree well-formed and adds exactly the inserted sequence. */
module Insertion {
  import opened Dna
  import opened TreeModel
  import opened Order
  import opened Lookup

  /** A node whose only child sits in the slot of that child's first base lists
      exactly what that child lists. */
  lemma OnlyChildGather(r: Tree, child: Tree, seg: string)
    requires Shaped(r) && Shaped(child) && |child.prefix| > 0 && IsBase(child.prefix[0])
    requires r.children == OnlyChild(child)
    ensures GatherUpTo(r, seg, MaxChildren) == GatherSlot(Some(child), seg)
  {
    var kk := Index(child.prefix[0]);
    assert GatherUpTo(r, seg, 1) == (if kk == 0 then GatherSlot(Some(child), seg) else []);
    assert GatherUpTo(r, seg, 2) == (if kk <= 1 then GatherSlot(Some(child), seg) else []);
    assert GatherUpTo(r, seg, 3) == (if kk <= 2 then GatherSlot(Some(child), seg) else []);
  }

  /** The node pushed down by a split is in order for the slot of its first base,
      and lists what the split node listed. */
  lemma PushDownFacts(c: Tree, m: nat, count: int, seg: string)
    requires Ordered(c) && 0 < m < |c.prefix|
    ensures var pushed := PushDown(c, m, count);
      |pushed.prefix| > 0 && IsBase(pushed.prefix[0]) &&
      SlotOk(Some(pushed), Index(pushed.prefix[0])) &&
      GatherSlot(Some(pushed), seg + c.prefix[..m]) == GatherStrings(Some(c), seg + c.prefix)
  {
    var p := c.prefix;
    var pushed := PushDown(c, m, count);
    assert AllBases(p[m..]) by {
      forall i | 0 <= i < |p[m..]| ensures IsBase(p[m..][i]) {
        assert p[m..][i] == p[m + i];
      }
    }
    assert Ordered(pushed);
    assert seg + p[..m] + p[m..] == seg + p by {
      assert p[..m] + p[m..] == p;
    }
    GatherUpToSlots(pushed, c, seg + p, MaxChildren);
  }

  /** A node holding only `child` is in order when `child` is in order for its slot. */
  lemma OnlyChildOrdered(prefix: string, isEnd: bool, count: int, child: Tree)
    requires AllBases(prefix) && |child.prefix| > 0 && IsBase(child.prefix[0])
    requires SlotOk(Some(child), Index(child.prefix[0]))
    ensures Ordered(Tree(prefix, isEnd, count, OnlyChild(child)))
  {
    var r := Tree(prefix, isEnd, count, OnlyChild(child));
    forall j | 0 <= j < MaxChildren ensures SlotOk(r.children[j], j) {
    }
  }

  /** Inserting into the subtree in slot `k` (input starting with the k-th base)
      keeps the slot in order and adds `seg + dna` to what is listed for it. */
  lemma {:induction false} InsertAtListing(o: Option<Tree>, k: nat, dna: string, seg: string)
    requires SlotOk(o, k) && k < MaxChildren && IsDna(dna) && dna[0] == Bases[k]
    ensures SlotOk(Some(InsertAt(o, dna)), k)
    ensures forall w :: w in GatherSlot(Some(InsertAt(o, dna)), seg) <==> w in GatherSlot(o, seg) || w == seg + dna
    decreases |dna|, 1
  {
    var m := Matched(dna, o);
    if m == 0 {
      InsertLeafCase(o, k, dna, seg);
    } else {
      var c := o.value;
      if m == |dna| {
        if |dna| == |c.prefix| {
          InsertExactCase(c, k, dna, seg);
        } else {
          InsertPrefixCase(c, k, dna, seg);
        }
      } else if m < |c.prefix| {
        InsertDivergeCase(c, k, dna, seg);
      } else {
        InsertDescendCase(c, k, dna, seg);
      }
    }
  }

  /** No common prefix: the slot is empty or wiped, and a leaf takes it. */
  lemma InsertLeafCase(o: Option<Tree>, k: nat, dna: string, seg: string)
    requires SlotOk(o, k) && k < MaxChildren && IsDna(dna) && dna[0] == Bases[k]
    requires Matched(dna, o) == 0
    ensures SlotOk(Some(InsertAt(o, dna)), k)
    ensures forall w :: w in GatherSlot(Some(InsertAt(o, dna)), seg) <==> w in GatherSlot(o, seg) || w == seg + dna
  {
    var r := Leaf(dna);
    assert InsertAt(o, dna) == r;
    assert Ordered(r);
    EmptyGather(r, seg + dna);
    if o.Some? {
      var c := o.value;
      if !Wiped(c) {
        CommonPrefixAtLeastOne(dna, c.prefix);
      }
      EmptyGather(c, seg + c.prefix);
    }
  }

  /** Exact match: the node becomes an end marker and lists its own string. */
  lemma InsertExactCase(c: Tree, k: nat, dna: string, seg: string)
    requires SlotOk(Some(c), k) && k < MaxChildren && IsDna(dna) && dna[0] == Bases[k]
    requires CommonPrefixLength(dna, c.prefix) == |dna| == |c.prefix|
    ensures SlotOk(Some(InsertAt(Some(c), dna)), k)
    ensures forall w :: w in GatherSlot(Some(InsertAt(Some(c), dna)), seg) <==> w in GatherSlot(Some(c), seg) || w == seg + dna
  {
    var r := c.(isEnd := true, count := c.count + 1);
    assert InsertAt(Some(c), dna) == r;
    assert dna == c.prefix by {
      assert dna[..|dna|] == dna && c.prefix[..|c.prefix|] == c.prefix;
    }
    assert !Wiped(c);
    GatherUpToSlots(r, c, seg + dna, MaxChildren);
  }

  /** The input is a strict prefix of the segment: the node keeps the input as its
      segment and becomes an end marker; the rest goes one level down. */
  lemma InsertPrefixCase(c: Tree, k: nat, dna: string, seg: string)
    requires SlotOk(Some(c), k) && k < MaxChildren && IsDna(dna) && dna[0] == Bases[k]
    requires CommonPrefixLength(dna, c.prefix) == |dna| != |c.prefix|
    ensures SlotOk(Some(InsertAt(Some(c), dna)), k)
    ensures forall w :: w in GatherSlot(Some(InsertAt(Some(c), dna)), seg) <==> w in GatherSlot(Some(c), seg) || w == seg + dna
  {
    var m := |dna|;
    var p := c.prefix;
    var pushed := PushDown(c, m, c.count);
    var r := Tree(dna, true, 1, OnlyChild(pushed));
    assert !Wiped(c);
    assert InsertAt(Some(c), dna) == r;
    assert p[..m] == dna by {
      assert dna[..m] == dna;
    }
    PushDownFacts(c, m, c.count, seg);
    OnlyChildOrdered(dna, true, 1, pushed);
    OnlyChildGather(r, pushed, seg + dna);
  }

  /** The input leaves the segment inside it: the node is cut to the matched part,
      the rest of the segment goes one level down, and the rest of the input is
      inserted below the cut node. */
  lemma {:induction false} InsertDivergeCase(c: Tree, k: nat, dna: string, seg: string)
    requires SlotOk(Some(c), k) && k < MaxChildren && IsDna(dna) && dna[0] == Bases[k]
    requires 0 < CommonPrefixLength(dna, c.prefix) < |dna| && CommonPrefixLength(dna, c.prefix) < |c.prefix|
    ensures SlotOk(Some(InsertAt(Some(c), dna)), k)
    ensures forall w :: w in GatherSlot(Some(InsertAt(Some(c), dna)), seg) <==> w in GatherSlot(Some(c), seg) || w == seg + dna
    decreases |dna|, 0
  {
    var m := CommonPrefixLength(dna, c.prefix);
    var p := c.prefix;
    var pushed := PushDown(c, m, if c.isEnd then c.count else 1);
    var split := Tree(dna[..m], false, 0, OnlyChild(pushed));
    var rest := dna[m..];
    assert !Wiped(c);
    SuffixIsDna(dna, m);
    assert InsertAt(Some(c), dna) == Insert(split, rest);
    var r := Insert(split, rest);
    assert AllBases(dna[..m]) by {
      forall i | 0 <= i < m ensures IsBase(dna[..m][i]) {
        assert dna[..m][i] == dna[i];
      }
    }
    PushDownFacts(c, m, if c.isEnd then c.count else 1, seg);
    OnlyChildOrdered(dna[..m], false, 0, pushed);
    var here := seg + dna[..m];
    assert here == seg + p[..m];
    OnlyChildGather(split, pushed, here);
    InsertListing(split, rest, here);
    assert here + rest == seg + dna by {
      assert dna[..m] + rest == dna;
    }
    assert r.prefix == dna[..m] && !r.isEnd;
    assert GatherSlot(Some(r), seg) == GatherUpTo(r, here, MaxChildren);
    assert GatherSlot(Some(c), seg) == GatherUpTo(split, here, MaxChildren);
  }

  /** The whole segment matches and input remains: it is inserted below the node. */
  lemma {:induction false} InsertDescendCase(c: Tree, k: nat, dna: string, seg: string)
    requires SlotOk(Some(c), k) && k < MaxChildren && IsDna(dna) && dna[0] == Bases[k]
    requires 0 < CommonPrefixLength(dna, c.prefix) == |c.prefix| < |dna|
    ensures SlotOk(Some(InsertAt(Some(c), dna)), k)
    ensures forall w :: w in GatherSlot(Some(InsertAt(Some(c), dna)), seg) <==> w in GatherSlot(Some(c), seg) || w == seg + dna
    decreases |dna|, 0
  {
    var p := c.prefix;
    var m := |p|;
    var rest := dna[m..];
    assert !Wiped(c);
    SuffixIsDna(dna, m);
    assert InsertAt(Some(c), dna) == Insert(c, rest);
    var r := Insert(c, rest);
    var here := seg + p;
    InsertListing(c, rest, here);
    assert here + rest == seg + dna by {
      assert dna[..m] == p;
      assert p + rest == dna;
    }
    assert r.prefix == p && r.isEnd == c.isEnd;
    assert GatherSlot(Some(r), seg) == (if c.isEnd then [here] else []) + GatherUpTo(r, here, MaxChildren);
    assert GatherSlot(Some(c), seg) == (if c.isEnd then [here] else []) + GatherUpTo(c, here, MaxChildren);
  }

  /** insertDNA below a dispatching node `t` whose string is `seg`: the node stays in
      order and lists, besides what it listed, exactly `seg + dna`. */
  lemma {:induction false} InsertListing(t: Tree, dna: string, seg: string)
    requires Ordered(t) && IsDna(dna)
    ensures Ordered(Insert(t, dna))
    ensures forall w :: w in GatherUpTo(Insert(t, dna), seg, MaxChildren) <==> w in GatherUpTo(t, seg, MaxChildren) || w == seg + dna
    decreases |dna|, 2
  {
    var k := Index(dna[0]);
    var t' := Insert(t, dna);
    InsertAtListing(t.children[k], k, dna, seg);
    assert t'.children == t.children[k := Some(InsertAt(t.children[k], dna))];
    assert Ordered(t') by {
      forall j | 0 <= j < MaxChildren ensures SlotOk(t'.children[j], j) {
        if j != k {
          assert t'.children[j] == t.children[j];
        }
      }
    }
    ExtendsAppend(seg, dna);
    assert (seg + dna)[|seg|] == dna[0];
    forall w ensures w in GatherUpTo(t', seg, MaxChildren) <==> w in GatherUpTo(t, seg, MaxChildren) || w == seg + dna {
      SlotOf(t', seg, MaxChildren, w);
      SlotOf(t, seg, MaxChildren, w);
    }
  }

  /** insertDNA(dna, root) on a well-formed tree: the tree stays well-formed and
      gatherStrings lists exactly the old strings and `dna`. Invalid input changes
      nothing. */
  lemma InsertStoresExactly(root: Tree, dna: string)
    requires WellFormed(root)
    ensures WellFormed(Insert(root, dna))
    ensures forall w :: w in GatherStrings(Some(Insert(root, dna)), "") <==>
      w in GatherStrings(Some(root), "") || (IsDna(dna) && w == dna)
  {
    if IsDna(dna) {
      InsertListing(root, dna, "");
      assert "" + dna == dna;
    }
  }

  /** Round trip: after insertDNA(dna, root), findDNA(dna, root) is true; every
      other sequence is found exactly when it was found before. */
  lemma InsertThenFind(root: Tree, dna: string, other: string)
    requires WellFormed(root) && IsDna(dna)
    ensures Find(dna, Some(Insert(root, dna)))
    ensures other != dna ==> (Find(other, Some(Insert(root, dna))) <==> Find(other, Some(root)))
  {
    InsertStoresExactly(root, dna);
    FindIsListed(Insert(root, dna), dna);
    FindIsListed(Insert(root, dna), other);
    FindIsListed(root, other);
  }
}
