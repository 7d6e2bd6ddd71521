/** findDNA against the list that gatherStrings produces: on a well-formed tree a
    sequence is found exactly when it is one of the listed strings. */
module Lookup {
  import opened Dna
  import opened TreeModel
  import opened Order

  /** Searching the subtree in slot `k` for input starting with the k-th base
      succeeds exactly when `seg + dna` is listed for that slot. */
  lemma {:induction false} FindInSlot(o: Option<Tree>, k: nat, dna: string, seg: string)
    requires SlotOk(o, k) && k < MaxChildren && IsDna(dna) && dna[0] == Bases[k]
    ensures Find(dna, o) <==> seg + dna in GatherSlot(o, seg)
    decreases o
  {
    match o
    case None =>
    case Some(c) =>
      if Wiped(c) {
        EmptyGather(c, seg);
        assert CommonPrefixLength(dna, c.prefix) == 0;
      } else {
        var p := c.prefix;
        var m := CommonPrefixLength(dna, p);
        assert dna[..1] == [dna[0]] && p[..1] == [p[0]];
        CommonPrefixAtLeastOne(dna, p);
        var here := seg + p;
        if m == |p| {
          assert dna[..m] == p;
          if m == |dna| {
            assert seg + dna == here;
            if !c.isEnd {
              SlotOf(c, here, MaxChildren, here);
            }
          } else {
            var rest := dna[m..];
            var j := Index(dna[m]);
            SuffixIsDna(dna, m);
            assert seg + dna == here + rest by {
              assert dna == p + rest;
            }
            FindInSlot(c.children[j], j, rest, here);
            ExtendsAppend(here, rest);
            assert (here + rest)[|here|] == dna[m];
            SlotOf(c, here, MaxChildren, here + rest);
          }
        } else {
          NotListedBeyond(c, seg, dna);
        }
      }
  }

  /** Input that neither equals nor continues a node's segment is not listed
      under that node. */
  lemma NotListedBeyond(c: Tree, seg: string, dna: string)
    requires Ordered(c) && CommonPrefixLength(dna, c.prefix) < |c.prefix|
    ensures seg + dna !in GatherStrings(Some(c), seg + c.prefix)
  {
    var p := c.prefix;
    var here := seg + p;
    if seg + dna in GatherStrings(Some(c), here) {
      NodeStrings(c, here, seg + dna);
      ContinuesSegment(seg, p, dna);
    }
  }

  lemma ContinuesSegment(seg: string, p: string, dna: string)
    requires seg + dna == seg + p || Extends(seg + dna, seg + p)
    ensures |dna| >= |p| && dna[..|p|] == p
  {
    assert (seg + dna)[|seg|..|seg + p|] == dna[..|p|];
    assert (seg + p)[|seg|..] == p;
  }

  lemma CommonPrefixAtLeastOne(dna: string, p: string)
    requires |dna| > 0 && |p| > 0 && dna[0] == p[0]
    ensures CommonPrefixLength(dna, p) >= 1
  {
  }

  /** findDNA(dna, root) is true exactly when gatherStrings(root, "") lists `dna`. */
  lemma FindIsListed(root: Tree, dna: string)
    requires WellFormed(root)
    ensures Find(dna, Some(root)) <==> dna in GatherStrings(Some(root), "")
  {
    var listed := GatherStrings(Some(root), "");
    if IsDna(dna) {
      assert CommonPrefixLength(dna, root.prefix) == 0;
      var k := Index(dna[0]);
      FindInSlot(root.children[k], k, dna, "");
      assert "" + dna == dna;
      ExtendsAppend("", dna);
      assert dna[|""|] == dna[0];
      SlotOf(root, "", MaxChildren, dna);
    } else if dna in listed {
      SlotOf(root, "", MaxChildren, dna);
    }
  }

  /** The node at which findDNA stops with the input and the segment both used up
      (None when it stops anywhere else); findDNA answers with its end marker. */
  function Reach(dna: string, tree: Option<Tree>): (r: Option<Tree>)
    requires ShapedSlot(tree)
    ensures Find(dna, tree) <==> r.Some? && r.value.isEnd
    ensures r.Some? ==> ShapedSlot(r) && !InvalidBaseFound(dna)
    decreases tree
  {
    match tree
    case None => None
    case Some(t) =>
      if InvalidBaseFound(dna) then None
      else
        var matched := CommonPrefixLength(dna, t.prefix);
        if matched == 0 then Reach(dna, t.children[Index(dna[0])])
        else if matched == |t.prefix| then
          if matched == |dna| then tree
          else Reach(dna[matched..], t.children[Index(dna[matched])])
        else None
  }
}
