/**
 * The markdown syntax tree (mdast / MDX) that the remark plugins rewrite,
 * and the effect of `visit` from unist-util-visit on it.
 *
 * A node is modelled twice: as the value `Node`, on which the rewrites are
 * specified, and as the object `MdNode`, whose fields the plugins assign in
 * place.  `MdNode.Abs()` gives the value an object tree stands for.
 */
module Mdast {
  import opened Wrappers

  /** An MDX JSX attribute `{ type, name, value }`. */
  datatype Attribute = Attribute(kind: string, name: string, value: Option<string>)

  /**
   * One syntax-tree node.  `kind` is the node's `type` tag; the optional
   * fields are those of the mdast Heading (`depth`), Code (`lang`, `meta`,
   * `value`) and MDX JSX element (`name`, `attributes`) node kinds.
   */
  datatype Node = Node(
    kind: string,
    depth: Option<int>,
    lang: Option<string>,
    meta: Option<string>,
    value: Option<string>,
    name: Option<string>,
    attributes: seq<Attribute>,
    children: seq<Node>)

  /** The node's own fields, its children left out. */
  function Own(n: Node): Node
  {
    n.(children := [])
  }

  /** A position in a tree: the child index taken at each level from the root. */
  type Path = seq<nat>

  /** The node at path `p`, if `p` leads to one. */
  function At(t: Node, p: Path): Option<Node>
    decreases p
  {
    if p == [] then Some(t)
    else if p[0] < |t.children| then At(t.children[p[0]], p[1..])
    else None
  }

  /** Every node of the tree satisfies `P`. */
  predicate AllNodes(t: Node, P: Node -> bool)
    decreases t
  {
    P(t) && forall i :: 0 <= i < |t.children| ==> AllNodes(t.children[i], P)
  }

  /** `AllNodes` says the same as "the node at every path satisfies `P`". */
  lemma {:induction false} AllNodesAt(t: Node, P: Node -> bool, p: Path)
    requires AllNodes(t, P)
    requires At(t, p).Some?
    ensures P(At(t, p).value)
    decreases p
  {
    if p != [] {
      AllNodesAt(t.children[p[0]], P, p[1..]);
    }
  }

  /** A callback may rewrite a node's own fields and may clear its children, nothing more. */
  ghost predicate KeepsOrClearsChildren(f: Node -> Node)
  {
    forall n :: f(n).children == n.children || f(n).children == []
  }

  /**
   * `visit(tree, ty, f)`: a pre-order walk that calls `f` on every node whose
   * type is `ty` and then descends into that node's children as they are
   * after the call (so children a callback removed are not visited).
   */
  function Visit(t: Node, ty: string, f: Node -> Node): (r: Node)
    requires KeepsOrClearsChildren(f)
    ensures Own(r) == Own(if t.kind == ty then f(t) else t)
    ensures |r.children| <= |t.children|
    decreases t, 1
  {
    var m := if t.kind == ty then f(t) else t;
    if m.children == [] then m else m.(children := VisitAll(t.children, ty, f))
  }

  /** `Visit` on each of a node's children, in order. */
  function VisitAll(cs: seq<Node>, ty: string, f: Node -> Node): (r: seq<Node>)
    requires KeepsOrClearsChildren(f)
    ensures |r| == |cs|
    decreases cs, 0
  {
    if cs == [] then [] else [Visit(cs[0], ty, f)] + VisitAll(cs[1..], ty, f)
  }

  lemma {:induction false} VisitAllAt(cs: seq<Node>, ty: string, f: Node -> Node, i: nat)
    requires KeepsOrClearsChildren(f)
    requires i < |cs|
    ensures VisitAll(cs, ty, f)[i] == Visit(cs[i], ty, f)
    decreases cs
  {
    if i > 0 {
      VisitAllAt(cs[1..], ty, f, i - 1);
    }
  }

  /**
   * How a walk's result is assembled: the callback's fields at the root, then
   * the walk of each remaining child.
   */
  lemma VisitFromParts(before: Node, after: Node, ty: string, f: Node -> Node)
    requires KeepsOrClearsChildren(f)
    requires Own(after) == Own(if before.kind == ty then f(before) else before)
    requires |after.children| == |(if before.kind == ty then f(before) else before).children|
    requires forall j :: 0 <= j < |after.children| ==> after.children[j] == Visit(before.children[j], ty, f)
    ensures after == Visit(before, ty, f)
  {
    var m := if before.kind == ty then f(before) else before;
    if m.children != [] {
      forall j | 0 <= j < |after.children|
        ensures after.children[j] == VisitAll(before.children, ty, f)[j]
      {
        VisitAllAt(before.children, ty, f, j);
      }
    }
  }

  /**
   * Path `p` leads to a node of `t` that the walk reaches: no node on the way
   * down lost its children to the callback.
   */
  predicate Reached(t: Node, ty: string, f: Node -> Node, p: Path)
    decreases p
  {
    p == [] ||
    (p[0] < |t.children| && (if t.kind == ty then f(t) else t).children != [] &&
     Reached(t.children[p[0]], ty, f, p[1..]))
  }

  /**
   * The walk leaves the tree's shape alone except below nodes whose children
   * the callback cleared: the nodes of the result are exactly the reached
   * nodes, at the same paths, each the walk of the original node there.
   */
  lemma {:induction false} VisitAt(t: Node, ty: string, f: Node -> Node, p: Path)
    requires KeepsOrClearsChildren(f)
    ensures At(Visit(t, ty, f), p).Some? <==> Reached(t, ty, f, p)
    ensures Reached(t, ty, f, p) ==>
      At(t, p).Some? && At(Visit(t, ty, f), p) == Some(Visit(At(t, p).value, ty, f))
    decreases p
  {
    if p != [] {
      var m := if t.kind == ty then f(t) else t;
      if m.children != [] && p[0] < |t.children| {
        VisitAllAt(t.children, ty, f, p[0]);
        VisitAt(t.children[p[0]], ty, f, p[1..]);
      }
    }
  }

  /** With a callback that keeps children, every node is reached. */
  lemma {:induction false} ReachedAll(t: Node, ty: string, f: Node -> Node, p: Path)
    requires forall n :: f(n).children == n.children
    ensures Reached(t, ty, f, p) <==> At(t, p).Some?
    decreases p
  {
    if p != [] && p[0] < |t.children| {
      ReachedAll(t.children[p[0]], ty, f, p[1..]);
    }
  }

  /** A walk whose callback changes no node it is called on changes nothing. */
  lemma {:induction false} VisitUnchanged(t: Node, ty: string, f: Node -> Node, P: Node -> bool)
    requires KeepsOrClearsChildren(f)
    requires forall n :: P(n) && n.kind == ty ==> f(n) == n
    requires AllNodes(t, P)
    ensures Visit(t, ty, f) == t
    decreases t
  {
    if t.children != [] {
      var r := VisitAll(t.children, ty, f);
      forall i | 0 <= i < |t.children|
        ensures r[i] == t.children[i]
      {
        VisitAllAt(t.children, ty, f, i);
        VisitUnchanged(t.children[i], ty, f, P);
      }
    }
  }

  /**
   * A node object as the plugins see it: each field can be assigned in
   * place.  `Repr` is the set of objects of the subtree rooted here; `Valid`
   * says every child owns a separate part of it, so the tree has no sharing
   * and no cycle.
   */
  class MdNode {
    var kind: string
    var depth: Option<int>
    var lang: Option<string>
    var meta: Option<string>
    var value: Option<string>
    var name: Option<string>
    var attributes: seq<Attribute>
    var children: seq<MdNode>
    ghost var Repr: set<object>

    ghost predicate Valid()
      reads this, Repr
      decreases Repr
    {
      this in Repr &&
      (forall i :: 0 <= i < |children| ==>
         children[i] in Repr && children[i].Repr <= Repr && this !in children[i].Repr &&
         children[i].Valid()) &&
      (forall i, j :: 0 <= i < j < |children| ==> children[i].Repr !! children[j].Repr)
    }

    /** A node with the given fields and no children, alone in its tree. */
    constructor (kind: string, depth: Option<int>, lang: Option<string>, meta: Option<string>,
                 value: Option<string>, name: Option<string>, attributes: seq<Attribute>)
      ensures Valid() && fresh(Repr) && Repr == {this}
      ensures Abs() == Node(kind, depth, lang, meta, value, name, attributes, [])
    {
      this.kind := kind;
      this.depth := depth;
      this.lang := lang;
      this.meta := meta;
      this.value := value;
      this.name := name;
      this.attributes := attributes;
      children := [];
      Repr := {this};
    }

    /** This node's own fields, as a childless node value. */
    function OwnFields(): (n: Node)
      reads this
      ensures n.children == []
    {
      Node(kind, depth, lang, meta, value, name, attributes, [])
    }

    /** The syntax tree this object tree stands for. */
    ghost function Abs(): (t: Node)
      reads this, Repr
      requires Valid()
      ensures |t.children| == |children| && Own(t) == OwnFields()
      decreases Repr, 1
    {
      Node(kind, depth, lang, meta, value, name, attributes, AbsFrom(0))
    }

    /** The trees of children `k` onwards. */
    ghost function AbsFrom(k: nat): (r: seq<Node>)
      reads this, Repr
      requires Valid() && k <= |children|
      ensures |r| == |children| - k
      ensures forall j :: k <= j < |children| ==> r[j - k] == children[j].Abs()
      decreases Repr, 0, |children| - k
    {
      if k == |children| then [] else [children[k].Abs()] + AbsFrom(k + 1)
    }
  }
}
