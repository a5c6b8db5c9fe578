/**
 The document tree that selectors are matched against: nodes with parent links and ordered child
 lists, from which the previous-sibling link and document order are derived.

 Nodes are numbered so that a parent comes before its children; the numbering is otherwise
 arbitrary, and in particular it is not document order.
 */
module Dom {
  import opened Sequences

  datatype NodeType = Element | Document | Other

  datatype Node = Node(
    nodeType: NodeType,
    parent: Option<nat>,
    kids: seq<nat>,
    name: string,
    id: Option<string>,
    classes: set<string>,
    attrs: map<string, string>)

  datatype Tree = Tree(nodes: seq<Node>, document: nat) {
    ghost predicate Valid() {
      && document < |nodes|
      && nodes[document].nodeType == Document
      && (forall n :: 0 <= n < |nodes| ==>
            LinkedUp(n) && LinkedDown(n) && (nodes[n].nodeType == Document ==> n == document))
    }

    /** A node's parent lists it as a child; the document and its fragments have no parent. */
    ghost predicate LinkedUp(n: nat)
      requires n < |nodes|
    {
      match nodes[n].parent
      case None => true
      case Some(p) => p < n && n in nodes[p].kids && nodes[n].nodeType != Document
    }

    /** Every child points back, no child is listed twice, and only elements can be both. */
    ghost predicate LinkedDown(n: nat)
      requires n < |nodes|
    {
      && (forall k :: k in nodes[n].kids ==> n < k < |nodes| && nodes[k].parent == Some(n))
      && Distinct(nodes[n].kids)
      && (nodes[n].nodeType != Element && nodes[n].kids != [] ==> nodes[n].parent == None)
    }

    predicate IsElement(n: nat) {
      n < |nodes| && nodes[n].nodeType == Element
    }

    function Parent(n: nat): Option<nat>
      requires n < |nodes|
    {
      nodes[n].parent
    }

    /** The position of n in its parent's child list. */
    function Position(n: nat): (i: nat)
      requires Valid() && n < |nodes|
      ensures nodes[n].parent.Some? ==>
        i < |nodes[nodes[n].parent.value].kids| && nodes[nodes[n].parent.value].kids[i] == n
    {
      match nodes[n].parent
      case None => 0
      case Some(p) => assert LinkedUp(n); IndexOf(nodes[p].kids, n)
    }

    function PreviousSibling(n: nat): (r: Option<nat>)
      requires Valid() && n < |nodes|
      ensures r.Some? ==> r.value < |nodes| && nodes[r.value].parent == nodes[n].parent
    {
      var i := Position(n);
      if nodes[n].parent.None? || i == 0 then None
      else
        var p := nodes[n].parent.value;
        assert LinkedUp(n) && LinkedDown(p);
        assert nodes[p].kids[i - 1] in nodes[p].kids;
        Some(nodes[p].kids[i - 1])
    }

    function NextSibling(n: nat): (r: Option<nat>)
      requires Valid() && n < |nodes|
      ensures r.Some? ==> r.value < |nodes| && nodes[r.value].parent == nodes[n].parent
    {
      var i := Position(n);
      if nodes[n].parent.None? then None
      else
        var p := nodes[n].parent.value;
        assert LinkedUp(n) && LinkedDown(p);
        if i + 1 == |nodes[p].kids| then None else
          assert nodes[p].kids[i + 1] in nodes[p].kids;
          Some(nodes[p].kids[i + 1])
    }

    /** a is a strict ancestor of n. */
    ghost predicate IsAncestor(a: nat, n: nat)
      requires Valid() && n < |nodes|
      decreases n
    {
      match nodes[n].parent
      case None => false
      case Some(p) => assert LinkedUp(n); a == p || IsAncestor(a, p)
    }

    /** a and b are children of one node. */
    ghost predicate SameParent(a: nat, b: nat) {
      a < |nodes| && b < |nodes| && nodes[a].parent.Some? && nodes[a].parent == nodes[b].parent
    }

    /** n and its descendants in document order. */
    function Preorder(n: nat): seq<nat>
      requires Valid() && n < |nodes|
      decreases |nodes| - n, 0
    {
      assert LinkedDown(n);
      [n] + PreorderAll(n, nodes[n].kids)
    }

    /** The subtrees rooted at ks, one after the other; ks are children of n. */
    function PreorderAll(n: nat, ks: seq<nat>): seq<nat>
      requires Valid() && n < |nodes|
      requires forall k :: k in ks ==> n < k < |nodes|
      decreases |nodes| - n, 0, |ks|
    {
      if ks == [] then [] else
        assert ks[0] in ks && forall k :: k in ks[1..] ==> k in ks;
        Preorder(ks[0]) + PreorderAll(n, ks[1..])
    }

    /** The descendants of n in document order. */
    function Descendants(n: nat): seq<nat>
      requires Valid() && n < |nodes|
    {
      Preorder(n)[1..]
    }
  }

  /** A child's position is unique: the child at position i has position i. */
  lemma PositionOfKid(t: Tree, p: nat, i: nat)
    requires t.Valid() && p < |t.nodes| && i < |t.nodes[p].kids|
    ensures t.nodes[p].kids[i] < |t.nodes|
    ensures t.nodes[t.nodes[p].kids[i]].parent == Some(p)
    ensures t.Position(t.nodes[p].kids[i]) == i
  {
    assert t.LinkedDown(p);
    var k := t.nodes[p].kids[i];
    assert k in t.nodes[p].kids;
    var j := t.Position(k);
    assert t.nodes[p].kids[j] == k;
  }

  /** The sibling links of the child at position i lead to positions i - 1 and i + 1. */
  lemma SiblingLinks(t: Tree, p: nat, i: nat)
    requires t.Valid() && p < |t.nodes| && i < |t.nodes[p].kids|
    ensures var ks := t.nodes[p].kids;
      && ks[i] < |t.nodes| && t.nodes[ks[i]].parent == Some(p) && t.Position(ks[i]) == i
      && t.PreviousSibling(ks[i]) == (if i == 0 then None else Some(ks[i - 1]))
      && t.NextSibling(ks[i]) == (if i + 1 == |ks| then None else Some(ks[i + 1]))
  {
    PositionOfKid(t, p, i);
  }

  /** Siblings are told apart by their positions. */
  lemma SamePosition(t: Tree, a: nat, b: nat)
    requires t.Valid() && t.SameParent(a, b)
    requires t.Position(a) == t.Position(b)
    ensures a == b
  {
  }
}
