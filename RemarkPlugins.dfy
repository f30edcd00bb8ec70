/**
 * The `remarkCodeBlocks` remark plugin (src/utils/remarkPlugins.js): every
 * fenced `code` node is turned, in place, into the MDX element
 * `<CodeBlock code="…" lang="…" meta="…" />`.
 */
module RemarkPlugins {
  import opened Wrappers
  import opened Mdast

  /** JavaScript truthiness of an optional string: present and not empty. */
  predicate Truthy(s: Option<string>): (b: bool)
    ensures b <==> s.Some? && |s.value| > 0
  {
    s.Some? && s.value != ""
  }

  /** `s || fallback`: the string itself when it is present and not empty, else the fallback. */
  function Or(s: Option<string>, fallback: string): (r: string)
    ensures s.None? || s == Some("") ==> r == fallback
    ensures s.Some? && s.value != "" ==> r == s.value
    ensures r == fallback || (s == Some(r) && r != "")
  {
    if Truthy(s) then s.value else fallback
  }

  /**
   * The value of the first attribute called `name`: `None` when there is no
   * such attribute, `Some(v)` with the attribute's (possibly absent) value.
   */
  function AttributeValue(attributes: seq<Attribute>, name: string): (r: Option<Option<string>>)
    ensures r.None? <==> forall i :: 0 <= i < |attributes| ==> attributes[i].name != name
    ensures r.Some? ==>
      exists i :: 0 <= i < |attributes| && attributes[i].name == name && attributes[i].value == r.value &&
                  (forall j :: 0 <= j < i ==> attributes[j].name != name)
  {
    if attributes == [] then None
    else if attributes[0].name == name then Some(attributes[0].value)
    else AttributeValue(attributes[1..], name)
  }

  /**
   * The visitor callback.  The node becomes a `CodeBlock` flow element with
   * no children whose attributes carry the raw code verbatim, the language
   * (`"text"` when missing or empty) and the fence metadata (`""` when
   * missing or empty); the node's other fields stay as they were.
   */
  function ToCodeBlock(n: Node): (r: Node)
    ensures r.kind == "mdxJsxFlowElement" && r.name == Some("CodeBlock") && r.children == []
    ensures |r.attributes| == 3
    ensures forall i :: 0 <= i < |r.attributes| ==> r.attributes[i].kind == "mdxJsxAttribute"
    ensures r.attributes[0].name == "code" && r.attributes[1].name == "lang" && r.attributes[2].name == "meta"
    ensures r.attributes[0].value == n.value
    ensures r.attributes[1].value == Some(Or(n.lang, "text")) && r.attributes[2].value == Some(Or(n.meta, ""))
    ensures r.depth == n.depth && r.lang == n.lang && r.meta == n.meta && r.value == n.value
  {
    var lang := Or(n.lang, "text");
    var meta := Or(n.meta, "");
    var code := n.value;
    var attributes := [
      Attribute("mdxJsxAttribute", "code", code),
      Attribute("mdxJsxAttribute", "lang", Some(lang)),
      Attribute("mdxJsxAttribute", "meta", Some(meta))];
    n.(kind := "mdxJsxFlowElement", name := Some("CodeBlock"), attributes := attributes, children := [])
  }

  /**
   * What `<CodeBlock>` receives as props: looking its attributes up by name
   * gives the raw code, the language (`"text"` when missing or empty) and the
   * metadata (`""` when missing or empty).
   */
  lemma CodeBlockLookups(n: Node)
    ensures AttributeValue(ToCodeBlock(n).attributes, "code") == Some(n.value)
    ensures Truthy(n.lang) ==> AttributeValue(ToCodeBlock(n).attributes, "lang") == Some(n.lang)
    ensures n.lang.None? || n.lang == Some("") ==> AttributeValue(ToCodeBlock(n).attributes, "lang") == Some(Some("text"))
    ensures Truthy(n.meta) ==> AttributeValue(ToCodeBlock(n).attributes, "meta") == Some(n.meta)
    ensures n.meta.None? || n.meta == Some("") ==> AttributeValue(ToCodeBlock(n).attributes, "meta") == Some(Some(""))
  {
    var attributes := ToCodeBlock(n).attributes;
    assert AttributeValue(attributes[2..], "meta") == Some(attributes[2].value);
    assert AttributeValue(attributes[1..], "lang") == Some(attributes[1].value);
  }

  /**
   * The plugin's effect on a whole tree.  A `code` root becomes its
   * `CodeBlock` element, with no children; any other root keeps its fields
   * and its number of children.
   */
  function RemarkCodeBlocks(t: Node): (r: Node)
    ensures t.kind == "code" ==> r == ToCodeBlock(t)
    ensures t.kind != "code" ==> Own(r) == Own(t) && |r.children| == |t.children|
  {
    Visit(t, "code", ToCodeBlock)
  }

  /** Path `p` leads to a node with no `code` node above it. */
  predicate OutsideCode(t: Node, p: Path)
    decreases p
  {
    p == [] || (t.kind != "code" && p[0] < |t.children| && OutsideCode(t.children[p[0]], p[1..]))
  }

  lemma {:induction false} ReachedOutsideCode(t: Node, p: Path)
    ensures Reached(t, "code", ToCodeBlock, p) <==> OutsideCode(t, p)
    decreases p
  {
    if p != [] && p[0] < |t.children| {
      ReachedOutsideCode(t.children[p[0]], p[1..]);
    }
  }

  /**
   * The rewrite is in place: the result has a node exactly at the paths with
   * no code node above them; a code node there is its `CodeBlock` element and
   * with no children, any other node keeps all its own fields.
   */
  lemma {:induction false} RemarkCodeBlocksAt(t: Node, p: Path)
    ensures At(RemarkCodeBlocks(t), p).Some? <==> OutsideCode(t, p)
    ensures OutsideCode(t, p) ==> At(t, p).Some?
    ensures OutsideCode(t, p) && At(t, p).value.kind == "code" ==>
      At(RemarkCodeBlocks(t), p).value == ToCodeBlock(At(t, p).value)
    ensures OutsideCode(t, p) && At(t, p).value.kind != "code" ==>
      Own(At(RemarkCodeBlocks(t), p).value) == Own(At(t, p).value) &&
      |At(RemarkCodeBlocks(t), p).value.children| == |At(t, p).value.children|
  {
    ReachedOutsideCode(t, p);
    VisitAt(t, "code", ToCodeBlock, p);
  }

  /** After one pass no `code` node is left. */
  lemma {:induction false} NoCodeRemains(t: Node)
    ensures AllNodes(RemarkCodeBlocks(t), (n: Node) => n.kind != "code")
    decreases t
  {
    var r := RemarkCodeBlocks(t);
    forall i | 0 <= i < |r.children|
      ensures AllNodes(r.children[i], (n: Node) => n.kind != "code")
    {
      VisitAllAt(t.children, "code", ToCodeBlock, i);
      NoCodeRemains(t.children[i]);
    }
  }

  /** The same, path by path: whatever node the pass leaves at `p` is not a `code` node. */
  lemma NoCodeAtAnyPath(t: Node, p: Path)
    ensures At(RemarkCodeBlocks(t), p).Some? ==> At(RemarkCodeBlocks(t), p).value.kind != "code"
  {
    if At(RemarkCodeBlocks(t), p).Some? {
      NoCodeRemains(t);
      AllNodesAt(RemarkCodeBlocks(t), (n: Node) => n.kind != "code", p);
    }
  }

  /** So a second pass changes nothing. */
  lemma {:induction false} RemarkCodeBlocksIdempotent(t: Node)
    ensures RemarkCodeBlocks(RemarkCodeBlocks(t)) == RemarkCodeBlocks(t)
  {
    NoCodeRemains(t);
    VisitUnchanged(RemarkCodeBlocks(t), "code", ToCodeBlock, (n: Node) => n.kind != "code");
  }

  /** The plugin run on an object tree, overwriting each code node's fields in place. */
  method RemarkCodeBlocksInPlace(tree: MdNode)
    requires tree.Valid()
    modifies tree.Repr
    ensures tree.Valid() && tree.Repr == old(tree.Repr)
    ensures tree.Abs() == RemarkCodeBlocks(old(tree.Abs()))
    decreases tree.Repr, 2
  {
    if tree.kind == "code" {
      var lang := Or(tree.lang, "text");
      var meta := Or(tree.meta, "");
      var code := tree.value;
      tree.kind := "mdxJsxFlowElement";
      tree.name := Some("CodeBlock");
      tree.attributes := [
        Attribute("mdxJsxAttribute", "code", code),
        Attribute("mdxJsxAttribute", "lang", Some(lang)),
        Attribute("mdxJsxAttribute", "meta", Some(meta))];
      tree.children := [];
    }
    assert tree.Valid();
    RewriteChildrenInPlace(tree);
    ghost var before := old(tree.Abs());
    ghost var after := tree.Abs();
    forall j | 0 <= j < |after.children|
      ensures after.children[j] == RemarkCodeBlocks(before.children[j])
    {
      assert after.children[j] == tree.children[j].Abs();
      assert before.children[j] == old(tree.children[j].Abs());
    }
    VisitFromParts(before, after, "code", ToCodeBlock);
  }

  /** The walk continuing into each child of `tree`, in order. */
  method RewriteChildrenInPlace(tree: MdNode)
    requires tree.Valid()
    modifies tree.Repr - {tree}
    ensures tree.Valid() && tree.Repr == old(tree.Repr)
    ensures forall j :: 0 <= j < |tree.children| ==>
      tree.children[j].Abs() == RemarkCodeBlocks(old(tree.children[j].Abs()))
    decreases tree.Repr, 1
  {
    var i := 0;
    while i < |tree.children|
      invariant 0 <= i <= |tree.children|
      invariant tree.Valid()
      invariant forall j :: 0 <= j < i ==> tree.children[j].Abs() == RemarkCodeBlocks(old(tree.children[j].Abs()))
      invariant forall j :: i <= j < |tree.children| ==> tree.children[j].Abs() == old(tree.children[j].Abs())
    {
      RewriteChildInPlace(tree, i);
      i := i + 1;
    }
  }

  /** The walk into child `i` of `tree`; its siblings are untouched. */
  method RewriteChildInPlace(tree: MdNode, i: nat)
    requires tree.Valid() && i < |tree.children|
    modifies tree.children[i].Repr
    ensures tree.Valid()
    ensures tree.children[i].Abs() == RemarkCodeBlocks(old(tree.children[i].Abs()))
    ensures forall j :: 0 <= j < |tree.children| && j != i ==> tree.children[j].Abs() == old(tree.children[j].Abs())
    decreases tree.Repr, 0
  {
    var c := tree.children[i];
    assert forall j :: 0 <= j < |tree.children| && j != i ==> tree.children[j].Repr !! c.Repr;
    RemarkCodeBlocksInPlace(c);
  }
}
