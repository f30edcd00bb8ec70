/**
 * The `advanceHeadings` remark plugin (src/utils/advanceHeadings.js): every
 * heading moves one level deeper, never past level 6.
 */
module Headings {
  import opened Wrappers
  import opened Mdast

  /** The deepest heading level (`<h6>`). */
  const MaxDepth := 6

  function Min(a: int, b: int): int
  {
    if a < b then a else b
  }

  /**
   * `Math.min(node.depth + 1, 6)`.  A node without a depth keeps none: the
   * source would compute NaN there, and mdast headings always carry a depth.
   */
  function NextDepth(d: Option<int>): (r: Option<int>)
    ensures r.Some? <==> d.Some?
    ensures d.Some? ==> r.value <= MaxDepth
    ensures d.Some? && d.value < MaxDepth ==> r.value == d.value + 1
    ensures d.Some? && d.value >= MaxDepth ==> r.value == MaxDepth
  {
    if d.Some? then Some(Min(d.value + 1, MaxDepth)) else None
  }

  /** The visitor callback: assigns the node's depth and nothing else. */
  function AdvanceHeading(n: Node): (r: Node)
    ensures r.(depth := n.depth) == n
    ensures r.depth.Some? <==> n.depth.Some?
    ensures n.depth.Some? ==> r.depth.value == Min(n.depth.value + 1, MaxDepth)
  {
    n.(depth := NextDepth(n.depth))
  }

  /**
   * The plugin's effect on a whole tree.  At the root a heading's depth
   * advances and every other field stays, and no child is added or removed;
   * `AdvanceHeadingsAt` states the same for every node.
   */
  function AdvanceHeadings(t: Node): (r: Node)
    ensures |r.children| == |t.children|
    ensures Own(r) == Own(t).(depth := if t.kind == "heading" then NextDepth(t.depth) else t.depth)
  {
    Visit(t, "heading", AdvanceHeading)
  }

  /**
   * The pass keeps the tree's shape, and the node at every path keeps all its
   * fields except that a heading's depth becomes `NextDepth` of the old one.
   */
  lemma {:induction false} AdvanceHeadingsAt(t: Node, p: Path)
    ensures At(AdvanceHeadings(t), p).Some? <==> At(t, p).Some?
    ensures At(t, p).Some? ==>
      var n, n' := At(t, p).value, At(AdvanceHeadings(t), p).value;
      Own(n') == Own(n).(depth := if n.kind == "heading" then NextDepth(n.depth) else n.depth)
  {
    ReachedAll(t, "heading", AdvanceHeading, p);
    VisitAt(t, "heading", AdvanceHeading, p);
  }

  /** After the pass no heading is deeper than level 6. */
  lemma {:induction false} AdvancedHeadingsAtMostSix(t: Node)
    ensures AllNodes(AdvanceHeadings(t), (n: Node) => n.kind == "heading" && n.depth.Some? ==> n.depth.value <= MaxDepth)
    decreases t
  {
    var r := AdvanceHeadings(t);
    forall i | 0 <= i < |r.children|
      ensures AllNodes(r.children[i], (n: Node) => n.kind == "heading" && n.depth.Some? ==> n.depth.value <= MaxDepth)
    {
      VisitAllAt(t.children, "heading", AdvanceHeading, i);
      AdvancedHeadingsAtMostSix(t.children[i]);
    }
  }

  /** Relative heading order survives: a heading no deeper than another stays no deeper. */
  lemma {:induction false} AdvanceHeadingsKeepsOrder(t: Node, p: Path, q: Path)
    requires At(t, p).Some? && At(t, p).value.kind == "heading" && At(t, p).value.depth.Some?
    requires At(t, q).Some? && At(t, q).value.kind == "heading" && At(t, q).value.depth.Some?
    requires At(t, p).value.depth.value <= At(t, q).value.depth.value
    ensures At(AdvanceHeadings(t), p).Some? && At(AdvanceHeadings(t), q).Some?
    ensures At(AdvanceHeadings(t), p).value.depth.Some? && At(AdvanceHeadings(t), q).value.depth.Some?
    ensures At(AdvanceHeadings(t), p).value.depth.value <= At(AdvanceHeadings(t), q).value.depth.value
  {
    AdvanceHeadingsAt(t, p);
    AdvanceHeadingsAt(t, q);
  }

  /** Two passes move a heading two levels down, still capped at 6. */
  lemma {:induction false} AdvanceHeadingsTwice(t: Node, p: Path)
    requires At(t, p).Some? && At(t, p).value.kind == "heading" && At(t, p).value.depth.Some?
    ensures At(AdvanceHeadings(AdvanceHeadings(t)), p).Some?
    ensures At(AdvanceHeadings(AdvanceHeadings(t)), p).value.depth ==
      Some(Min(At(t, p).value.depth.value + 2, MaxDepth))
  {
    AdvanceHeadingsAt(t, p);
    AdvanceHeadingsAt(AdvanceHeadings(t), p);
  }

  /** A pass over a tree whose headings are all at level 6 changes nothing. */
  lemma {:induction false} AdvanceHeadingsSaturated(t: Node)
    requires AllNodes(t, (n: Node) => n.kind == "heading" ==> n.depth == Some(MaxDepth))
    ensures AdvanceHeadings(t) == t
  {
    VisitUnchanged(t, "heading", AdvanceHeading, (n: Node) => n.kind == "heading" ==> n.depth == Some(MaxDepth));
  }

  /** The plugin run on an object tree, assigning `depth` of each heading in place. */
  method AdvanceHeadingsInPlace(tree: MdNode)
    requires tree.Valid()
    modifies tree.Repr
    ensures tree.Valid() && tree.Repr == old(tree.Repr)
    ensures tree.Abs() == AdvanceHeadings(old(tree.Abs()))
    decreases tree.Repr, 2
  {
    if tree.kind == "heading" {
      tree.depth := NextDepth(tree.depth);
    }
    assert tree.Valid();
    AdvanceChildrenInPlace(tree);
    ghost var before := old(tree.Abs());
    ghost var after := tree.Abs();
    forall j | 0 <= j < |after.children|
      ensures after.children[j] == AdvanceHeadings(before.children[j])
    {
      assert after.children[j] == tree.children[j].Abs();
      assert before.children[j] == old(tree.children[j].Abs());
    }
    VisitFromParts(before, after, "heading", AdvanceHeading);
  }

  /** The walk continuing into each child of `tree`, in order. */
  method AdvanceChildrenInPlace(tree: MdNode)
    requires tree.Valid()
    modifies tree.Repr - {tree}
    ensures tree.Valid() && tree.Repr == old(tree.Repr)
    ensures forall j :: 0 <= j < |tree.children| ==>
      tree.children[j].Abs() == AdvanceHeadings(old(tree.children[j].Abs()))
    decreases tree.Repr, 1
  {
    var i := 0;
    while i < |tree.children|
      invariant 0 <= i <= |tree.children|
      invariant tree.Valid()
      invariant forall j :: 0 <= j < i ==> tree.children[j].Abs() == AdvanceHeadings(old(tree.children[j].Abs()))
      invariant forall j :: i <= j < |tree.children| ==> tree.children[j].Abs() == old(tree.children[j].Abs())
    {
      AdvanceChildInPlace(tree, i);
      i := i + 1;
    }
  }

  /** The walk into child `i` of `tree`; its siblings are untouched. */
  method AdvanceChildInPlace(tree: MdNode, i: nat)
    requires tree.Valid() && i < |tree.children|
    modifies tree.children[i].Repr
    ensures tree.Valid()
    ensures tree.children[i].Abs() == AdvanceHeadings(old(tree.children[i].Abs()))
    ensures forall j :: 0 <= j < |tree.children| && j != i ==> tree.children[j].Abs() == old(tree.children[j].Abs())
    decreases tree.Repr, 0
  {
    var c := tree.children[i];
    assert forall j :: 0 <= j < |tree.children| && j != i ==> tree.children[j].Repr !! c.Repr;
    AdvanceHeadingsInPlace(c);
  }
}
