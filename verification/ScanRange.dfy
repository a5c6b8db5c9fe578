/**
 Whether the scan covers everything that a selector selects. It looks below the parent of the context when
 that can be searched by tag name; a fragment cannot, and then the siblings of the context are missed.
 */
module ScanRange {
  import opened Sequences
  import opened Dom
  import opened Selectors
  import opened SelectorCompiler
  import opened DocumentOrder
  import opened QueryPlan

  /** An element directly under a fragment, with an element somewhere after it. */
  ghost predicate CutOff(t: Tree, context: nat)
    requires t.Valid() && context < |t.nodes|
  {
    && t.IsElement(context)
    && t.nodes[context].parent.Some? && t.nodes[context].parent.value < |t.nodes|
    && t.nodes[t.nodes[context].parent.value].nodeType == Other
    && exists y: nat :: IsEarlierSibling(t, context, y) && t.IsElement(y)
  }

  /** Selectors are matched against the tree of the document; with the document for context nothing ties them to it. */
  ghost predicate InReach(t: Tree, context: nat, e: nat)
    requires t.Valid()
  {
    context == t.document ==> Within(t, t.document, e)
  }

  /** The scan finds exactly the selected elements. */
  ghost predicate FindsAll(t: Tree, groups: seq<seq<Token>>, context: nat)
    requires t.Valid() && context < |t.nodes|
  {
    forall e: nat :: InReach(t, context, e) ==> (e in FullScan(t, groups, context) <==> Selected(t, groups, context, e))
  }

  lemma ScanMembers(t: Tree, groups: seq<seq<Token>>, context: nat, e: nat)
    requires t.Valid() && context < |t.nodes|
    ensures e in FullScan(t, groups, context) <==>
            e < |t.nodes| && t.IsAncestor(Surroundings(t, context), e) && Selected(t, groups, context, e)
  {
    DescendantMembers(t, Surroundings(t, context), e);
  }

  /** A selector that leads with `+` or `~` selects nothing unless an element stands after the context. */
  lemma SiblingSeen(t: Tree, tokens: seq<Token>, context: nat, e: nat)
    requires t.Valid() && context < |t.nodes| && Satisfies(t, tokens, context, e)
    requires context != t.document && (Leading(tokens) == Some(Adjacent) || Leading(tokens) == Some(Sibling))
    ensures t.IsElement(context) && t.nodes[context].parent.Some?
    ensures exists y: nat :: IsEarlierSibling(t, context, y) && t.IsElement(y)
  {
    hide AllHold, Tree.Valid, Body;
    var es :| Assigns(t, Leading(tokens), Body(tokens), context, es) && es[|es| - 1] == e;
    assert IsEarlierSibling(t, context, es[0]) && t.IsElement(es[0]);
  }

  /** What one group selects lies below the scanned node, unless the context is cut off and `+` or `~` leads. */
  lemma SelectedInRange(t: Tree, tokens: seq<Token>, context: nat, e: nat)
    requires t.Valid() && context < |t.nodes| && InReach(t, context, e) && t.IsElement(e)
    requires Satisfies(t, tokens, context, e)
    requires CutOff(t, context) ==> Leading(tokens) != Some(Adjacent) && Leading(tokens) != Some(Sibling)
    ensures t.IsAncestor(Surroundings(t, context), e)
  {
    hide Satisfies, IsEarlierSibling, Leading;
    assert t.LinkedUp(context) && t.LinkedUp(t.document);
    if context != t.document {
      if Leading(tokens) != Some(Adjacent) && Leading(tokens) != Some(Sibling) {
        SelectedInside(t, tokens, context, e);
        if Surroundings(t, context) != context {
          AncestorTransitive(t, Surroundings(t, context), context, e);
        }
      } else {
        SiblingSeen(t, tokens, context, e);
        SelectedNearby(t, tokens, context, e);
      }
    }
  }

  /** The scan finds all that is selected, unless the context is cut off and some group begins with `+` or `~`. */
  lemma ScanFindsAll(t: Tree, groups: seq<seq<Token>>, context: nat)
    requires t.Valid() && context < |t.nodes|
    requires CutOff(t, context) ==> forall g :: 0 <= g < |groups| ==>
      Leading(groups[g]) != Some(Adjacent) && Leading(groups[g]) != Some(Sibling)
    ensures FindsAll(t, groups, context)
  {
    hide Satisfies, Tree.Valid, CutOff, FullScan;
    forall e: nat | InReach(t, context, e)
      ensures e in FullScan(t, groups, context) <==> Selected(t, groups, context, e)
    {
      ScanMembers(t, groups, context, e);
      if Selected(t, groups, context, e) {
        var g :| 0 <= g < |groups| && Satisfies(t, groups[g], context, e);
        SelectedInRange(t, groups[g], context, e);
      }
    }
  }

  /** It finds all that any selector selects if and only if the context is not cut off. */
  lemma ScanFindsAllExactly(t: Tree, context: nat)
    requires t.Valid() && context < |t.nodes|
    ensures (forall groups :: FindsAll(t, groups, context)) <==> !CutOff(t, context)
  {
    if CutOff(t, context) {
      var y: nat :| IsEarlierSibling(t, context, y) && t.IsElement(y);
      SiblingMissed(t, context, y, Sibling);
      assert !FindsAll(t, [[Relative(Sibling), Simple(Tag("*"))]], context);
    } else {
      forall groups ensures FindsAll(t, groups, context) {
        ScanFindsAll(t, groups, context);
      }
    }
  }

  /** `+ *` or `~ *` selects an element after the context that the scan misses. */
  lemma SiblingMissed(t: Tree, context: nat, y: nat, c: Combinator)
    requires t.Valid() && context < |t.nodes| && CutOff(t, context) && t.IsElement(y)
    requires (c == Sibling || c == Adjacent) && Related(t, c, context, y)
    ensures Selected(t, [[Relative(c), Simple(Tag("*"))]], context, y)
    ensures y !in FullScan(t, [[Relative(c), Simple(Tag("*"))]], context)
    ensures !FindsAll(t, [[Relative(c), Simple(Tag("*"))]], context)
  {
    var tokens := [Relative(c), Simple(Tag("*"))];
    assert Leading(tokens) == Some(c) && Body(tokens) == [Simple(Tag("*"))];
    SubjectOfTest(t, Some(c), [], Tag("*"), context, y);
    assert [] + [Simple(Tag("*"))] == [Simple(Tag("*"))];
    SubjectOfNothing(t, Some(c), context, y);
    assert [tokens][0] == tokens;
    assert t.LinkedUp(context) && t.LinkedUp(y) && t.LinkedUp(t.document);
    ScanMembers(t, [tokens], context, y);
    BelowParentOnly(t, context, y);
  }

  /** A sibling is no descendant. */
  lemma BelowParentOnly(t: Tree, context: nat, y: nat)
    requires t.Valid() && t.SameParent(context, y)
    ensures !t.IsAncestor(context, y)
  {
    assert t.LinkedUp(y) && t.LinkedUp(context);
    if t.IsAncestor(context, y) {
      var p := t.nodes[y].parent.value;
      if context != p { AncestorsAreSmaller(t, context, p); }
    }
  }

  /** A document, and beside it a fragment with two elements. */
  ghost function WithFragment(): Tree {
    Tree([Node(Document, None, [], "#document", None, {}, map[]),
          Node(Other, None, [2, 3], "#document-fragment", None, {}, map[]),
          Node(Element, Some(1), [], "a", None, {}, map[]),
          Node(Element, Some(1), [], "b", None, {}, map[])], 0)
  }

  lemma FragmentValid()
    ensures WithFragment().Valid()
  {
    var t := WithFragment();
    assert t.LinkedUp(0) && t.LinkedDown(0) && t.LinkedUp(1) && t.LinkedDown(1);
    assert t.LinkedUp(2) && t.LinkedDown(2) && t.LinkedUp(3) && t.LinkedDown(3);
  }

  /** There `+ *`, from the first element, selects the second one and finds nothing. */
  lemma FragmentSiblingMissed()
    ensures var t, tokens := WithFragment(), [Relative(Adjacent), Simple(Tag("*"))];
      t.Valid() && Selected(t, [tokens], 2, 3) && 3 !in FullScan(t, [tokens], 2)
  {
    var t := WithFragment();
    FragmentValid();
    PositionOfKid(t, 1, 0);
    PositionOfKid(t, 1, 1);
    assert t.nodes[1].kids[0] == 2 && t.nodes[1].kids[1] == 3;
    assert IsEarlierSibling(t, 2, 3) && t.IsElement(3);
    SiblingMissed(t, 2, 3, Adjacent);
  }
}
