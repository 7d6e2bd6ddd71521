/** The well-formedness of a radix tree and where gatherStrings puts each string:
    a string below a node is found in the slot of its next base only. */
module Order {
  import opened Dna
  import opened TreeModel

  /** A node wiped in place by deleteNode. */
  predicate Wiped(t: Tree) {
    t == DeleteNode(t)
  }

  /** The node in slot `k` of its parent is either wiped, or has a non-empty segment
      that starts with the k-th base and is itself in order. */
  predicate SlotOk(o: Option<Tree>, k: nat)
    ensures SlotOk(o, k) ==> ShapedSlot(o)
    decreases o, 0
  {
    match o
    case None => true
    case Some(c) =>
      Wiped(c) || (|c.prefix| > 0 && k < MaxChildren && c.prefix[0] == Bases[k] && Ordered(c))
  }

  /** Every slot of `t` holds a node in order for that slot. */
  predicate Ordered(t: Tree)
    ensures Ordered(t) ==> Shaped(t)
    decreases t, 1
  {
    AllBases(t.prefix) && |t.children| == MaxChildren &&
    forall k | 0 <= k < MaxChildren :: SlotOk(t.children[k], k)
  }

  /** A well-formed tree: the root has the empty segment, is never an end marker,
      and every node below it is in order. */
  predicate WellFormed(root: Tree) {
    root.prefix == [] && !root.isEnd && Ordered(root)
  }

  /** `w` continues `seg` with one or more bases. */
  predicate Extends(w: string, seg: string) {
    |w| > |seg| && w[..|seg|] == seg && AllBases(w[|seg|..])
  }

  lemma ExtendsTrans(w: string, seg: string, p: string)
    requires |p| > 0 && AllBases(p) && Extends(w, seg + p)
    ensures Extends(w, seg) && w[|seg|] == p[0]
  {
    assert w[..|seg + p|][..|seg|] == w[..|seg|];
    assert (seg + p)[..|seg|] == seg;
    assert w[|seg|] == w[..|seg + p|][|seg|] == (seg + p)[|seg|] == p[0];
    forall i | 0 <= i < |w[|seg|..]| ensures IsBase(w[|seg|..][i]) {
      if i < |p| {
        assert w[|seg|..][i] == w[..|seg + p|][|seg| + i] == (seg + p)[|seg| + i] == p[i];
      } else {
        assert w[|seg|..][i] == w[|seg + p|..][i - |p|];
      }
    }
  }

  lemma ExtendsAppend(seg: string, s: string)
    requires |s| > 0 && AllBases(s)
    ensures Extends(seg + s, seg)
  {
    assert (seg + s)[..|seg|] == seg && (seg + s)[|seg|..] == s;
  }

  /** The loop of gatherStrings reads only the slots of its node. */
  lemma {:induction false} GatherUpToSlots(t1: Tree, t2: Tree, seg: string, i: nat)
    requires Shaped(t1) && Shaped(t2) && t1.children == t2.children && i <= MaxChildren
    ensures GatherUpTo(t1, seg, i) == GatherUpTo(t2, seg, i)
  {
    if i > 0 {
      GatherUpToSlots(t1, t2, seg, i - 1);
    }
  }

  /** Every string listed for the slot `k` continues `seg`, first with the k-th base. */
  lemma {:induction false} SlotStrings(o: Option<Tree>, k: nat, seg: string)
    requires SlotOk(o, k)
    ensures forall w | w in GatherSlot(o, seg) :: Extends(w, seg) && w[|seg|] == Bases[k]
    decreases o, 0
  {
    match o
    case None =>
    case Some(c) =>
      if Wiped(c) {
        EmptyGather(c, seg);
      } else {
        var p := c.prefix;
        forall w | w in GatherSlot(o, seg) ensures Extends(w, seg) && w[|seg|] == Bases[k] {
          if w == seg + p {
            ExtendsAppend(seg, p);
            assert w[|seg|] == p[0];
          } else {
            assert w in GatherUpTo(c, seg + p, MaxChildren);
            SlotOf(c, seg + p, MaxChildren, w);
            ExtendsTrans(w, seg, p);
          }
        }
      }
  }

  /** A node without children lists at most its own string. */
  lemma EmptyGather(c: Tree, seg: string)
    requires Shaped(c) && c.children == NoChildren
    ensures GatherStrings(Some(c), seg) == if c.isEnd then [seg] else []
  {
    assert GatherUpTo(c, seg, 1) == [];
    assert GatherUpTo(c, seg, 2) == [];
    assert GatherUpTo(c, seg, 3) == [];
  }

  /** Where a string sits among the first `i` slots of an ordered node: exactly in
      the slot of the base that follows `seg`. */
  lemma {:induction false} SlotOf(t: Tree, seg: string, i: nat, w: string)
    requires Ordered(t) && i <= MaxChildren
    ensures w in GatherUpTo(t, seg, i) <==>
      Extends(w, seg) && Index(w[|seg|]) < i && w in GatherSlot(t.children[Index(w[|seg|])], seg)
    ensures w in GatherUpTo(t, seg, i) ==> Extends(w, seg)
    decreases t, 1, i
  {
    if i > 0 {
      SlotOf(t, seg, i - 1, w);
      SlotStrings(t.children[i - 1], i - 1, seg);
      assert GatherUpTo(t, seg, i) == GatherUpTo(t, seg, i - 1) + GatherSlot(t.children[i - 1], seg);
      if w in GatherSlot(t.children[i - 1], seg) {
        assert Extends(w, seg) && w[|seg|] == Bases[i - 1];
      }
    }
  }

  /** Every string gatherStrings lists for an ordered node continues `seg`, unless
      it is `seg` itself at an end marker. */
  lemma NodeStrings(t: Tree, seg: string, w: string)
    requires Ordered(t) && w in GatherStrings(Some(t), seg)
    ensures (w == seg && t.isEnd) || Extends(w, seg)
  {
    if w != seg || !t.isEnd {
      SlotOf(t, seg, MaxChildren, w);
    }
  }
}
