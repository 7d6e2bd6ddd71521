/** The order in which gatherStrings lists the strings of a tree: a node's own
    string before those below it, and the slots in the order A, C, G, T. On a
    well-formed tree that is strictly ascending lexicographic order, so no string
    is listed twice. */
module GatherOrder {
  import opened Dna
  import opened TreeModel
  import opened Order

  /** Lexicographic order on strings, by character: `a` is a proper prefix of `b`,
      or the first character where they differ is smaller in `a`. On bases it is
      the order A < C < G < T of the child slots. */
  predicate Less(a: string, b: string) {
    (|a| < |b| && a == b[..|a|]) ||
    exists i | 0 <= i < |a| && i < |b| :: a[..i] == b[..i] && a[i] < b[i]
  }

  /** Strictly ascending. */
  predicate Ascending(ws: seq<string>) {
    forall i, j | 0 <= i < j < |ws| :: Less(ws[i], ws[j])
  }

  /** Two ascending lists, every element of the first below every element of the
      second, make an ascending list. */
  lemma AscendingAppend(a: seq<string>, b: seq<string>)
    requires Ascending(a) && Ascending(b)
    requires forall x, y | x in a && y in b :: Less(x, y)
    ensures Ascending(a + b)
  {
    forall i, j | 0 <= i < j < |a + b| ensures Less((a + b)[i], (a + b)[j]) {
      if j < |a| {
        assert (a + b)[i] == a[i] && (a + b)[j] == a[j];
      } else if i >= |a| {
        assert (a + b)[i] == b[i - |a|] && (a + b)[j] == b[j - |a|];
      } else {
        assert (a + b)[i] == a[i] && a[i] in a;
        assert (a + b)[j] == b[j - |a|] && b[j - |a|] in b;
      }
    }
  }

  /** gatherStrings lists the strings of an ordered node in ascending order. */
  lemma {:induction false} GatherAscendingFrom(t: Tree, seg: string)
    requires Ordered(t)
    ensures Ascending(GatherStrings(Some(t), seg))
    decreases t, 2
  {
    var own := if t.isEnd then [seg] else [];
    var below := GatherUpTo(t, seg, MaxChildren);
    GatherUpToAscending(t, seg, MaxChildren);
    forall x, y | x in own && y in below ensures Less(x, y) {
      SlotOf(t, seg, MaxChildren, y);
    }
    AscendingAppend(own, below);
  }

  /** The loop of gatherStrings keeps its list ascending: every string of slot
      `i - 1` follows every string of the slots before it. */
  lemma {:induction false} GatherUpToAscending(t: Tree, seg: string, i: nat)
    requires Ordered(t) && i <= MaxChildren
    ensures Ascending(GatherUpTo(t, seg, i))
    decreases t, 1, i
  {
    if i > 0 {
      var before := GatherUpTo(t, seg, i - 1);
      var slot := GatherSlot(t.children[i - 1], seg);
      GatherUpToAscending(t, seg, i - 1);
      SlotAscending(t.children[i - 1], i - 1, seg);
      SlotStrings(t.children[i - 1], i - 1, seg);
      // the slot order is the character order
      assert forall j, l | 0 <= j < l < MaxChildren :: Bases[j] < Bases[l];
      forall x, y | x in before && y in slot ensures Less(x, y) {
        SlotOf(t, seg, i - 1, x);
        var n := |seg|;
        assert x[..n] == seg == y[..n];
        assert x[n] == Bases[Index(x[n])] < Bases[i - 1] == y[n];
      }
      AscendingAppend(before, slot);
    }
  }

  /** The strings of one slot are ascending. */
  lemma {:induction false} SlotAscending(o: Option<Tree>, k: nat, seg: string)
    requires SlotOk(o, k)
    ensures Ascending(GatherSlot(o, seg))
    decreases o, 0
  {
    if o.Some? {
      var c := o.value;
      if Wiped(c) {
        EmptyGather(c, seg + c.prefix);
      } else {
        GatherAscendingFrom(c, seg + c.prefix);
      }
    }
  }

  /** gatherStrings(root, "", list) on a well-formed tree appends its strings in
      ascending order, A < C < G < T, a string before its extensions; in
      particular no string is appended twice. */
  lemma GatherAscending(root: Tree)
    requires WellFormed(root)
    ensures Ascending(GatherStrings(Some(root), ""))
    ensures forall i, j | 0 <= i < j < |GatherStrings(Some(root), "")| ::
      GatherStrings(Some(root), "")[i] != GatherStrings(Some(root), "")[j]
  {
    GatherAscendingFrom(root, "");
  }
}
