/**
 The query plan: seed the search from the rightmost token that the document can look up, drop that
 token, and filter the seed by the rest.
 */
module QueryPlan {
  import opened Sequences
  import opened Dom
  import opened Selectors
  import opened SelectorCompiler
  import opened DocumentOrder

  /** e is the subject of one of the comma-separated groups. */
  ghost predicate Selected(t: Tree, groups: seq<seq<Token>>, context: nat, e: nat)
    requires t.Valid()
  {
    t.IsElement(e) && exists g :: 0 <= g < |groups| && Satisfies(t, groups[g], context, e)
  }

  /** The node whose descendants include the context's siblings, when it can be searched. */
  function Surroundings(t: Tree, context: nat): (root: nat)
    requires t.Valid() && context < |t.nodes|
    ensures root < |t.nodes|
  {
    assert t.LinkedUp(context);
    match t.nodes[context].parent
    case Some(p) => if t.nodes[p].nodeType == Other then context else p
    case None => context
  }

  /** The selected elements below the surroundings of the context, in document order. */
  ghost function FullScan(t: Tree, groups: seq<seq<Token>>, context: nat): seq<nat>
    requires t.Valid() && context < |t.nodes|
  {
    Filter(t.Descendants(Surroundings(t, context)), (e: nat) => Selected(t, groups, context, e))
  }

  // ---------------------------------------------------------------- looking up one token

  predicate LooksUp(t: Tree, test: Test, e: nat)
  {
    t.IsElement(e) &&
    match test
    case Tag(name) => name == "*" || t.nodes[e].name == name
    case Id(id) => t.nodes[e].id == Some(id)
    case Class(c) => c in t.nodes[e].classes
    case _ => false
  }

  /**
   The document's own look-up methods: by tag name and by class below the context, by id (one element
   at most) only in a document or fragment; a fragment has no look-up by class.
   */
  function Find(t: Tree, test: Test, context: nat): (r: Option<seq<nat>>)
    requires t.Valid() && context < |t.nodes|
  {
    var all := Filter(t.Descendants(context), (e: nat) => LooksUp(t, test, e));
    match test
    case Tag(_) => Some(all)
    case Class(_) => if t.nodes[context].nodeType == Other then None else Some(all)
    case Id(_) => if t.IsElement(context) then None else if all == [] then Some([]) else Some([all[0]])
    case _ => None
  }

  /** The rightmost token before i that can be looked up, unless a combinator comes first. */
  function SeedBefore(t: Tree, tokens: seq<Token>, context: nat, i: nat): (r: Option<nat>)
    requires t.Valid() && context < |t.nodes| && i <= |tokens|
    ensures r.Some? ==> r.value < i && tokens[r.value].Simple? && Find(t, tokens[r.value].test, context).Some?
    ensures r.Some? ==> forall k :: r.value < k < i ==> tokens[k].Simple?
  {
    if i == 0 || tokens[i - 1].Relative? then None
    else if Find(t, tokens[i - 1].test, context).Some? then Some(i - 1)
    else SeedBefore(t, tokens, context, i - 1)
  }

  /** Selectors that start with `>`, `+` or `~` are not seeded. */
  predicate NeedsContext(tokens: seq<Token>) {
    Leading(tokens).Some? && Leading(tokens) != Some(Descendant)
  }

  function Without(tokens: seq<Token>, i: nat): seq<Token>
    requires i < |tokens|
  {
    tokens[..i] + tokens[i + 1..]
  }

  /** The elements found by seeding from token i. */
  ghost function Seeded(t: Tree, tokens: seq<Token>, context: nat, i: nat): seq<nat>
    requires t.Valid() && context < |t.nodes| && i < |tokens|
    requires tokens[i].Simple? && Find(t, tokens[i].test, context).Some?
  {
    var seed := Find(t, tokens[i].test, context).value;
    var rest := Without(tokens, i);
    if rest == [] then seed else Filter(seed, (e: nat) => Selected(t, [rest], context, e))
  }

  // ---------------------------------------------------------------- dropping the looked-up token

  /** A compound's tests may be read in any order: token i can be split off the last compound. */
  lemma {:induction false} SplitOff(t: Tree, tokens: seq<Token>, i: nat, context: nat, e: nat)
    requires t.Valid() && t.IsElement(e) && i < |tokens|
    requires forall k :: i <= k < |tokens| ==> tokens[k].Simple?
    ensures Satisfies(t, tokens, context, e) <==>
            Satisfies(t, Without(tokens, i), context, e) && Holds(t, e, tokens[i].test)
    decreases |tokens|
  {
    hide Satisfies, Tree.Valid, Holds;
    var init, last := tokens[..|tokens| - 1], tokens[|tokens| - 1];
    assert tokens == init + [last];
    LastTest(t, init, last.test, context, e);
    if i < |tokens| - 1 {
      SplitOff(t, init, i, context, e);
      assert Without(tokens, i) == Without(init, i) + [last];
      LastTest(t, Without(init, i), last.test, context, e);
    } else {
      assert Without(tokens, i) == init;
    }
  }

  lemma LastTest(t: Tree, init: seq<Token>, test: Test, context: nat, e: nat)
    requires t.Valid() && t.IsElement(e)
    ensures Satisfies(t, init + [Simple(test)], context, e) <==>
            Satisfies(t, init, context, e) && Holds(t, e, test)
  {
    var tokens := init + [Simple(test)];
    assert Leading(tokens) == Leading(init);
    assert Body(tokens) == Body(init) + [Simple(test)];
    SubjectOfTest(t, Leading(init), Body(init), test, context, e);
  }

  // ---------------------------------------------------------------- staying inside the context

  lemma RelatedStaysInside(t: Tree, c: Combinator, context: nat, a: nat, e: nat)
    requires t.Valid() && a < |t.nodes| && e < |t.nodes| && t.IsAncestor(context, a) && Related(t, c, a, e)
    ensures t.IsAncestor(context, e)
  {
    match c
    case Child => AncestorTransitive(t, context, a, e);
    case Descendant => AncestorTransitive(t, context, a, e);
    case Adjacent => assert t.LinkedUp(a);
    case Sibling => assert t.LinkedUp(a);
  }

  /** What an unseeded selector without a leading `+` or `~` selects lies inside the context. */
  lemma SelectedInside(t: Tree, tokens: seq<Token>, context: nat, e: nat)
    requires t.Valid() && context < |t.nodes| && context != t.document
    requires Leading(tokens) != Some(Adjacent) && Leading(tokens) != Some(Sibling)
    requires Satisfies(t, tokens, context, e)
    ensures e < |t.nodes| && t.IsAncestor(context, e)
  {
    var es :| Assigns(t, Leading(tokens), Body(tokens), context, es) && es[|es| - 1] == e;
    var i := 0;
    while i < |es| - 1
      invariant 0 <= i < |es| && t.IsElement(es[i]) && t.IsAncestor(context, es[i])
    {
      RelatedStaysInside(t, Combinators(Body(tokens))[i], context, es[i], es[i + 1]);
      i := i + 1;
    }
  }

  /** Scanning a larger subtree finds nothing more when everything selected lies inside the context. */
  lemma NarrowScan(t: Tree, root: nat, context: nat, p: nat -> bool)
    requires t.Valid() && root < |t.nodes| && Within(t, root, context)
    requires forall e: nat :: p(e) ==> e < |t.nodes| && t.IsAncestor(context, e)
    ensures Filter(t.Descendants(root), p) == Filter(t.Descendants(context), p)
  {
    var pre, post := Stretch(t, root, context);
    PreorderDistinct(t, root);
    var all, inner := t.Preorder(root), t.Preorder(context);
    StretchApart(pre, inner, post);
    forall x | x in pre || x in post ensures !p(x) {
      PreorderMembers(t, context, x);
    }
    FilterNone(pre, p);
    FilterNone(post, p);
    FilterAppend(pre + inner, post, p);
    FilterAppend(pre, inner, p);
    NotOneself(t, root, context, p);
    NotOneself(t, context, context, p);
  }

  lemma StretchApart(pre: seq<nat>, s: seq<nat>, post: seq<nat>)
    requires Distinct(pre + s + post)
    ensures forall x :: x in s ==> x !in pre && x !in post
  {
    var all := pre + s + post;
    forall j | 0 <= j < |s| ensures s[j] !in pre && s[j] !in post {
      assert all[|pre| + j] == s[j];
      assert forall i :: 0 <= i < |pre| ==> all[i] == pre[i];
      assert forall i :: 0 <= i < |post| ==> all[|pre| + |s| + i] == post[i];
    }
  }

  lemma NotOneself(t: Tree, n: nat, context: nat, p: nat -> bool)
    requires t.Valid() && n < |t.nodes| && Within(t, n, context)
    requires forall e: nat :: p(e) ==> e < |t.nodes| && t.IsAncestor(context, e)
    ensures Filter(t.Preorder(n), p) == Filter(t.Descendants(n), p)
  {
    if p(n) {
      AncestorsAreSmaller(t, context, n);
      if n != context { AncestorsAreSmaller(t, n, context); }
    }
  }

  // ---------------------------------------------------------------- the plan is the full scan

  /** No two elements of the subtree carry this id. */
  ghost predicate UniqueId(t: Tree, root: nat, id: string)
    requires t.Valid()
  {
    forall x: nat, y: nat :: HasId(t, root, id, x) && HasId(t, root, id, y) ==> x == y
  }

  ghost predicate HasId(t: Tree, root: nat, id: string, x: nat)
    requires t.Valid()
  {
    Within(t, root, x) && LooksUp(t, Id(id), x)
  }

  /** An id that is unique in a subtree is unique in the subtrees of it. */
  lemma UniqueBelow(t: Tree, root: nat, n: nat, id: string)
    requires t.Valid() && n < |t.nodes| && Within(t, root, n) && UniqueId(t, root, id)
    ensures UniqueId(t, n, id)
  {
    forall x: nat | HasId(t, n, id, x) ensures HasId(t, root, id, x) {
      if root != n && x != n {
        AncestorTransitive(t, root, n, x);
      }
    }
  }

  lemma DescendantMembers(t: Tree, n: nat, x: nat)
    requires t.Valid() && n < |t.nodes|
    ensures x in t.Descendants(n) <==> x < |t.nodes| && t.IsAncestor(n, x)
  {
    PreorderMembers(t, n, x);
    PreorderDistinct(t, n);
    assert t.Preorder(n) == [n] + t.Descendants(n);
    if x < |t.nodes| && t.IsAncestor(n, x) { AncestorsAreSmaller(t, n, x); }
    if x in t.Descendants(n) {
      var i :| 0 <= i < |t.Descendants(n)| && t.Descendants(n)[i] == x;
      assert t.Preorder(n)[i + 1] == x && t.Preorder(n)[0] == n;
    }
  }

  /** With unique ids, looking an element up by id finds all there is to find. */
  lemma FindIsComplete(t: Tree, test: Test, context: nat)
    requires t.Valid() && context < |t.nodes| && Find(t, test, context).Some?
    requires test.Id? ==> UniqueId(t, context, test.id)
    ensures Find(t, test, context).value == Filter(t.Descendants(context), (e: nat) => LooksUp(t, test, e))
  {
    var all := Filter(t.Descendants(context), (e: nat) => LooksUp(t, test, e));
    if test.Id? && |all| > 1 {
      DescendantMembers(t, context, all[0]);
      DescendantMembers(t, context, all[1]);
      assert HasId(t, context, test.id, all[0]) && HasId(t, context, test.id, all[1]);
      PreorderDistinct(t, context);
      FilterDistinct(t.Descendants(context), (e: nat) => LooksUp(t, test, e));
      assert false;
    }
  }

  lemma {:induction false} FilterDistinct(s: seq<nat>, p: nat -> bool)
    requires Distinct(s)
    ensures Distinct(Filter(s, p))
  {
    if s != [] {
      FilterDistinct(s[1..], p);
      assert forall x :: x in Filter(s[1..], p) ==> x in s[1..];
    }
  }

  /** On the context's descendants, being selected is being looked up and selected by the rest. */
  lemma SelectedBySeed(t: Tree, tokens: seq<Token>, i: nat, context: nat, e: nat)
    requires t.Valid() && context < |t.nodes| && e in t.Descendants(context)
    requires i < |tokens| && forall k :: i <= k < |tokens| ==> tokens[k].Simple?
    requires Find(t, tokens[i].test, context).Some?
    ensures var rest := Without(tokens, i);
      Selected(t, [tokens], context, e) <==>
      LooksUp(t, tokens[i].test, e) && (rest == [] || Selected(t, [rest], context, e))
  {
    hide Satisfies, Tree.Valid;
    var rest := Without(tokens, i);
    assert [tokens][0] == tokens && [rest][0] == rest;
    DescendantMembers(t, context, e);
    if t.IsElement(e) {
      SplitOff(t, tokens, i, context, e);
      SatisfiesNothing(t, context, e);
    }
  }

  lemma SatisfiesNothing(t: Tree, context: nat, e: nat)
    requires t.Valid() && t.IsElement(e) && t.IsAncestor(context, e)
    ensures Satisfies(t, [], context, e)
  {
    SubjectOfNothing(t, None, context, e);
  }

  /**
   Seeding from the rightmost token that can be looked up returns the same elements in the same order
   as filtering everything by the full selector.
   */
  lemma SeedingIsFullScan(t: Tree, tokens: seq<Token>, context: nat)
    requires t.Valid() && context < |t.nodes| && !NeedsContext(tokens)
    requires SeedBefore(t, tokens, context, |tokens|).Some?
    requires var test := tokens[SeedBefore(t, tokens, context, |tokens|).value].test;
      test.Id? ==> UniqueId(t, context, test.id)
    ensures Seeded(t, tokens, context, SeedBefore(t, tokens, context, |tokens|).value) ==
            FullScan(t, [tokens], context)
  {
    hide Satisfies, Tree.Valid;
    var i := SeedBefore(t, tokens, context, |tokens|).value;
    var rest := Without(tokens, i);
    var all := t.Descendants(context);
    var looksUp := (e: nat) => LooksUp(t, tokens[i].test, e);
    var selected := (e: nat) => Selected(t, [tokens], context, e);
    var byRest := (e: nat) => rest == [] || Selected(t, [rest], context, e);
    FindIsComplete(t, tokens[i].test, context);
    forall e | e in all ensures selected(e) <==> looksUp(e) && byRest(e) {
      SelectedBySeed(t, tokens, i, context, e);
    }
    FilterFilter(all, looksUp, byRest, selected);
    if rest == [] {
      FilterEverything(Filter(all, looksUp), byRest);
    } else {
      FilterCongruent(Filter(all, looksUp), byRest, (e: nat) => Selected(t, [rest], context, e));
    }
    InnerScan(t, [tokens], context);
  }

  lemma {:induction false} FilterEverything(s: seq<nat>, p: nat -> bool)
    requires forall x :: x in s ==> p(x)
    ensures Filter(s, p) == s
  {
    if s != [] {
      assert s[0] in s && forall x :: x in s[1..] ==> x in s;
      FilterEverything(s[1..], p);
    }
  }

  /** Without a leading `+` or `~` it is enough to scan the context itself. */
  lemma InnerScan(t: Tree, groups: seq<seq<Token>>, context: nat)
    requires t.Valid() && context < |t.nodes|
    requires forall g :: 0 <= g < |groups| ==>
      Leading(groups[g]) != Some(Adjacent) && Leading(groups[g]) != Some(Sibling)
    ensures FullScan(t, groups, context) ==
            Filter(t.Descendants(context), (e: nat) => Selected(t, groups, context, e))
  {
    assert t.LinkedUp(context) && t.LinkedUp(t.document);
    var selected := (e: nat) => Selected(t, groups, context, e);
    if Surroundings(t, context) != context {
      forall e: nat | selected(e) ensures e < |t.nodes| && t.IsAncestor(context, e) {
        var g :| 0 <= g < |groups| && Satisfies(t, groups[g], context, e);
        SelectedInside(t, groups[g], context, e);
      }
      NarrowScan(t, Surroundings(t, context), context, selected);
    }
    FilterCongruent(t.Descendants(context), selected, (e: nat) => Selected(t, groups, context, e));
    FilterCongruent(t.Descendants(Surroundings(t, context)), selected, (e: nat) => Selected(t, groups, context, e));
  }

  /**
   Seeding by an id is right for every selector exactly when the document or fragment that is
   searched carries that id once at most.
   */
  lemma IdSeedsNeedUniqueIds(t: Tree, root: nat, id: string)
    requires t.Valid() && root < |t.nodes| && !t.IsElement(root)
    ensures UniqueId(t, root, id) <==>
      forall tokens: seq<Token> :: SeedsById(t, tokens, root, id) ==>
        Seeded(t, tokens, root, SeedBefore(t, tokens, root, |tokens|).value) ==
        FullScan(t, [tokens], root)
  {
    if UniqueId(t, root, id) {
      forall tokens: seq<Token> | SeedsById(t, tokens, root, id)
        ensures Seeded(t, tokens, root, SeedBefore(t, tokens, root, |tokens|).value) ==
                FullScan(t, [tokens], root)
      {
        SeedingIsFullScan(t, tokens, root);
      }
    } else {
      var only: seq<Token> := [Simple(Id(id))];
      assert SeedBefore(t, only, root, 1) == Some(0);
      LoneId(t, root, id);
    }
  }

  ghost predicate SeedsById(t: Tree, tokens: seq<Token>, root: nat, id: string)
    requires t.Valid() && root < |t.nodes|
  {
    && !NeedsContext(tokens)
    && SeedBefore(t, tokens, root, |tokens|).Some?
    && tokens[SeedBefore(t, tokens, root, |tokens|).value] == Simple(Id(id))
  }

  /** For a repeated id, `#id` by itself is planned to one element and selects at least two. */
  lemma LoneId(t: Tree, root: nat, id: string)
    requires t.Valid() && root < |t.nodes| && !t.IsElement(root) && !UniqueId(t, root, id)
    ensures var only := [Simple(Id(id))];
      |Seeded(t, only, root, 0)| == 1 && |FullScan(t, [only], root)| >= 2
  {
    hide Satisfies, Tree.Valid, Tree.Descendants, Tree.IsAncestor, Filter;
    var only, all := [Simple(Id(id))], t.Descendants(root);
    assert Without(only, 0) == [];
    var looksUp := (e: nat) => LooksUp(t, Id(id), e);
    var selected := (e: nat) => Selected(t, [only], root, e);
    forall e | e in all ensures selected(e) <==> looksUp(e) {
      SelectedBySeed(t, only, 0, root, e);
    }
    InnerScan(t, [only], root);
    FilterCongruent(all, selected, looksUp);
    DuplicatesFound(t, root, id);
    FilterCongruent(all, looksUp, (e: nat) => LooksUp(t, Id(id), e));
  }

  /** Looking up an id finds an element that carries it, and no other one below the node stands before it. */
  lemma FirstOfId(t: Tree, root: nat, id: string, i: nat)
    requires t.Valid() && root < |t.nodes| && !t.IsElement(root) && i < |t.Descendants(root)|
    requires var all := t.Descendants(root);
      IsElementWithId(t, all[i], id) && forall j :: 0 <= j < i ==> !IsElementWithId(t, all[j], id)
    ensures Find(t, Id(id), root) == Some([t.Descendants(root)[i]])
  {
    hide Tree.Valid, Tree.Descendants;
    var all, p := t.Descendants(root), (e: nat) => LooksUp(t, Id(id), e);
    FilterAppend(all[..i], all[i..], p);
    FilterNone(all[..i], p);
    assert all == all[..i] + all[i..];
  }

  predicate IsElementWithId(t: Tree, e: nat, id: string) {
    t.IsElement(e) && t.nodes[e].id == Some(id)
  }

  lemma DuplicatesFound(t: Tree, root: nat, id: string)
    requires t.Valid() && root < |t.nodes| && !t.IsElement(root) && !UniqueId(t, root, id)
    ensures |Filter(t.Descendants(root), (e: nat) => LooksUp(t, Id(id), e))| >= 2
  {
    var found := Filter(t.Descendants(root), (e: nat) => LooksUp(t, Id(id), e));
    var x: nat, y: nat :| HasId(t, root, id, x) && HasId(t, root, id, y) && x != y;
    assert t.IsAncestor(root, x) && t.IsAncestor(root, y);
    TwoMembers(found, x, y) by {
      hide Tree.IsAncestor, Filter, Tree.Descendants;
      DescendantMembers(t, root, x);
      DescendantMembers(t, root, y);
    }
  }

  lemma TwoMembers(s: seq<nat>, x: nat, y: nat)
    requires x in s && y in s && x != y
    ensures |s| >= 2
  {
  }

  // ---------------------------------------------------------------- starting from a leading id

  /** `#id` and a combinator lead the selector: the search can start from the element with that id. */
  predicate LeadsWithId(tokens: seq<Token>) {
    |tokens| > 2 && tokens[0].Simple? && tokens[0].test.Id? && tokens[1].Relative?
  }

  lemma {:induction false} FrontSplit(test: Test, c: Combinator, rest: seq<Token>)
    ensures Compounds([Simple(test), Relative(c)] + rest) == [[test]] + Compounds(rest)
    ensures Combinators([Simple(test), Relative(c)] + rest) == [c] + Combinators(rest)
  {
    hide Compounds, Combinators;
    var front: seq<Token> := [Simple(test), Relative(c)];
    if rest == [] {
      NoTokens();
      OneMoreToken([], Simple(test));
      assert [] + [test] == [test] && Compounds([] + [Simple(test)]) == [[test]];
      OneMoreToken([] + [Simple(test)], Relative(c));
      assert front + [] == [] + [Simple(test)] + [Relative(c)];
      assert rest == [];
    } else {
      var init, last := rest[..|rest| - 1], rest[|rest| - 1];
      FrontSplit(test, c, init);
      OneMoreToken(front + init, last);
      OneMoreToken(init, last);
      assert front + rest == front + init + [last] && rest == init + [last];
      var cs := Compounds(init);
      assert ([[test]] + cs)[..|cs|] == [[test]] + cs[..|cs| - 1];
    }
  }

  lemma NoTokens()
    ensures Compounds([]) == [[]] && Combinators([]) == []
  {
  }

  /** Going left along a combinator does not leave the document. */
  lemma RelatedStaysInDocument(t: Tree, c: Combinator, a: nat, e: nat)
    requires t.Valid() && a < |t.nodes| && e < |t.nodes| && t.IsAncestor(t.document, e) && Related(t, c, a, e)
    requires t.IsElement(a)
    ensures t.IsAncestor(t.document, a)
  {
    match c
    case Child => assert t.LinkedUp(e);
    case Descendant => AncestorsCompare(t, a, t.document, e);
    case Adjacent =>
    case Sibling =>
  }

  /** A selector led by `#id` selects what the rest of it selects from the element with that id. */
  lemma LeadingIdMeaning(t: Tree, tokens: seq<Token>, top: nat, e: nat)
    requires t.Valid() && LeadsWithId(tokens) && UniqueId(t, t.document, tokens[0].test.id)
    requires HasId(t, t.document, tokens[0].test.id, top) && t.IsElement(e) && t.IsAncestor(t.document, e)
    ensures Satisfies(t, tokens, t.document, e) <==> Satisfies(t, tokens[1..], top, e)
  {
    var test, c, rest := tokens[0].test, tokens[1].combinator, tokens[2..];
    hide Tree.Valid, Tree.IsAncestor, UniqueId, HasId, Assigns;
    assert tokens[1..][1..] == rest && Leading(tokens) == None && Leading(tokens[1..]) == Some(c);
    if Satisfies(t, tokens, t.document, e) {
      var es :| Assigns(t, None, tokens, t.document, es) && es[|es| - 1] == e;
      LedByTop(t, tokens, top, es);
      assert Assigns(t, Some(c), rest, top, es[1..]);
    }
    if Satisfies(t, tokens[1..], top, e) {
      var es :| Assigns(t, Some(c), rest, top, es) && es[|es| - 1] == e;
      PutTopInFront(t, tokens, top, es);
      assert ([top] + es)[|es|] == e;
    }
  }

  /** The first element of an assignment is in the document when the last one is. */
  lemma AssignedInDocument(t: Tree, tokens: seq<Token>, es: seq<nat>)
    requires t.Valid() && Assigns(t, None, tokens, t.document, es) && t.IsAncestor(t.document, es[|es| - 1])
    ensures t.IsElement(es[0]) && t.IsAncestor(t.document, es[0])
  {
    hide Tree.Valid, Tree.IsAncestor, Related, AllHold, Compounds, Combinators, Anchored;
    var cs, i := Combinators(tokens), |es| - 1;
    while i > 0
      invariant 0 <= i < |es| && t.IsAncestor(t.document, es[i])
    {
      assert Related(t, cs[i - 1], es[i - 1], es[i]) && t.IsElement(es[i - 1]);
      RelatedStaysInDocument(t, cs[i - 1], es[i - 1], es[i]);
      i := i - 1;
    }
  }

  /** The compounds and combinators behind a leading id. */
  lemma BehindLeadingId(tokens: seq<Token>)
    requires LeadsWithId(tokens)
    ensures Compounds(tokens) == [[tokens[0].test]] + Compounds(tokens[2..])
    ensures Combinators(tokens) == [tokens[1].combinator] + Combinators(tokens[2..])
  {
    assert tokens == [Simple(tokens[0].test), Relative(tokens[1].combinator)] + tokens[2..];
    FrontSplit(tokens[0].test, tokens[1].combinator, tokens[2..]);
  }

  lemma LedByTop(t: Tree, tokens: seq<Token>, top: nat, es: seq<nat>)
    requires t.Valid() && LeadsWithId(tokens) && UniqueId(t, t.document, tokens[0].test.id)
    requires HasId(t, t.document, tokens[0].test.id, top)
    requires Assigns(t, None, tokens, t.document, es) && t.IsAncestor(t.document, es[|es| - 1])
    ensures es[0] == top && |es| > 1
    ensures Assigns(t, Some(tokens[1].combinator), tokens[2..], top, es[1..])
  {
    hide Tree.Valid, Tree.IsAncestor, Related, UniqueId, AllHold;
    var test, rest := tokens[0].test, tokens[2..];
    BehindLeadingId(tokens);
    var cs, rs := Compounds(rest), Combinators(rest);
    AssignedInDocument(t, tokens, es);
    assert AllHold(t, es[0], [test]);
    TopHasId(t, test.id, es[0], top);
    assert Related(t, Combinators(tokens)[0], es[0], es[1]);
    forall k | 0 <= k < |es| - 1 ensures AllHold(t, es[1..][k], cs[k]) {
      assert Compounds(tokens)[k + 1] == cs[k];
    }
    forall k | 0 <= k < |rs| ensures Related(t, rs[k], es[1..][k], es[1..][k + 1]) {
      assert Combinators(tokens)[k + 1] == rs[k];
    }
  }

  lemma TopHasId(t: Tree, id: string, x: nat, top: nat)
    requires t.Valid() && UniqueId(t, t.document, id) && HasId(t, t.document, id, top)
    requires t.IsElement(x) && t.IsAncestor(t.document, x) && AllHold(t, x, [Id(id)])
    ensures x == top
  {
    FirstHasId(t, id, x);
  }

  lemma PutTopInFront(t: Tree, tokens: seq<Token>, top: nat, es: seq<nat>)
    requires t.Valid() && LeadsWithId(tokens) && HasId(t, t.document, tokens[0].test.id, top)
    requires Assigns(t, Some(tokens[1].combinator), tokens[2..], top, es)
    ensures Assigns(t, None, tokens, t.document, [top] + es)
  {
    BehindLeadingId(tokens);
    assert AllHold(t, top, [tokens[0].test]);
    hide Tree.Valid, Tree.IsAncestor, Related, AllHold, Compounds, Combinators;
    OneInFront(t, top, es, tokens[0].test, Compounds(tokens[2..]), tokens[1].combinator, Combinators(tokens[2..]));
  }

  /** One element more in front, with its tests and the combinator behind it. */
  lemma OneInFront(t: Tree, top: nat, es: seq<nat>, test: Test, cs: seq<seq<Test>>, c: Combinator, rs: seq<Combinator>)
    requires t.Valid() && |es| == |cs| == |rs| + 1 && t.IsElement(top) && AllHold(t, top, [test])
    requires forall k :: 0 <= k < |es| ==> t.IsElement(es[k]) && AllHold(t, es[k], cs[k])
    requires forall k :: 0 <= k < |es| ==> es[k] < |t.nodes|
    requires forall k :: 0 <= k < |rs| ==> Related(t, rs[k], es[k], es[k + 1])
    requires es[0] < |t.nodes| && Related(t, c, top, es[0])
    ensures var all, links := [top] + es, [c] + rs;
      && (forall k :: 0 <= k < |all| ==> t.IsElement(all[k]) && AllHold(t, all[k], ([[test]] + cs)[k]))
      && (forall k :: 0 <= k < |all| ==> all[k] < |t.nodes|)
      && (forall k :: 0 <= k < |links| ==> Related(t, links[k], all[k], all[k + 1]))
  {
    hide Tree.Valid, Related, AllHold;
    var all, links := [top] + es, [c] + rs;
    forall k | 0 <= k < |all| ensures t.IsElement(all[k]) && AllHold(t, all[k], ([[test]] + cs)[k]) {
      if k > 0 {
        assert all[k] == es[k - 1] && ([[test]] + cs)[k] == cs[k - 1];
      }
    }
    assert forall k :: 0 <= k < |all| ==> all[k] < |t.nodes|;
    forall k | 0 <= k < |links| ensures Related(t, links[k], all[k], all[k + 1]) {
      if k > 0 {
        assert all[k] == es[k - 1] && all[k + 1] == es[k] && links[k] == rs[k - 1];
      }
    }
  }

  /** What the rest selects from an element lies below that element's parent. */
  lemma SelectedNearby(t: Tree, tokens: seq<Token>, top: nat, e: nat)
    requires t.Valid() && t.IsElement(top) && t.nodes[top].parent.Some? && Leading(tokens).Some?
    requires Satisfies(t, tokens, top, e)
    ensures e < |t.nodes| && t.IsAncestor(t.nodes[top].parent.value, e)
  {
    hide Related, AllHold, Tree.IsAncestor, Tree.Valid;
    var es :| Assigns(t, Leading(tokens), Body(tokens), top, es) && es[|es| - 1] == e;
    var p, i := t.nodes[top].parent.value, 0;
    BelowParent(t, Leading(tokens).value, top, es[0]);
    while i < |es| - 1
      invariant 0 <= i < |es| && t.IsElement(es[i]) && t.IsAncestor(p, es[i])
    {
      RelatedStaysInside(t, Combinators(Body(tokens))[i], p, es[i], es[i + 1]);
      i := i + 1;
    }
  }

  lemma BelowParent(t: Tree, c: Combinator, top: nat, e: nat)
    requires t.Valid() && t.IsElement(top) && t.nodes[top].parent.Some? && e < |t.nodes| && Related(t, c, top, e)
    ensures t.IsAncestor(t.nodes[top].parent.value, e)
  {
    assert t.LinkedUp(top);
    match c
    case Child => AncestorTransitive(t, t.nodes[top].parent.value, top, e);
    case Descendant => AncestorTransitive(t, t.nodes[top].parent.value, top, e);
    case Adjacent =>
    case Sibling =>
  }

  /** Starting the search from the element with the leading id finds the same elements in the same order. */
  lemma ContextReduction(t: Tree, tokens: seq<Token>, top: nat)
    requires t.Valid() && LeadsWithId(tokens) && UniqueId(t, t.document, tokens[0].test.id)
    requires HasId(t, t.document, tokens[0].test.id, top)
    ensures FullScan(t, [tokens[1..]], top) == FullScan(t, [tokens], t.document)
  {
    var all := t.Descendants(t.document);
    assert t.LinkedUp(t.document) && t.LinkedUp(top) && t.IsAncestor(t.document, top);
    var p := t.nodes[top].parent.value;
    assert t.LinkedDown(p) && t.LinkedUp(p);
    assert top in t.nodes[p].kids && (p != t.document ==> t.IsAncestor(t.document, p));
    assert Surroundings(t, t.document) == t.document && Surroundings(t, top) == p;
    var whole := (e: nat) => Selected(t, [tokens], t.document, e);
    var fromTop := (e: nat) => Selected(t, [tokens[1..]], top, e);
    hide Satisfies, UniqueId, Tree.Valid, Tree.IsAncestor, Tree.Descendants, Filter;
    assert [tokens][0] == tokens && [tokens[1..]][0] == tokens[1..];
    forall e | e in all ensures whole(e) <==> fromTop(e) {
      DescendantMembers(t, t.document, e);
      if t.IsElement(e) { LeadingIdMeaning(t, tokens, top, e); }
    }
    FilterCongruent(all, whole, fromTop);
    forall e: nat | fromTop(e) ensures e < |t.nodes| && t.IsAncestor(p, e) {
      SelectedNearby(t, tokens[1..], top, e);
    }
    NarrowScan(t, t.document, p, fromTop);
    FilterCongruent(all, whole, (e: nat) => Selected(t, [tokens], t.document, e));
    FilterCongruent(t.Descendants(p), fromTop, (e: nat) => Selected(t, [tokens[1..]], top, e));
  }

  /** Without an element with the leading id nothing is selected. */
  lemma NoLeadingId(t: Tree, tokens: seq<Token>)
    requires t.Valid() && LeadsWithId(tokens) && forall x: nat :: !HasId(t, t.document, tokens[0].test.id, x)
    ensures FullScan(t, [tokens], t.document) == []
  {
    var all := t.Descendants(t.document);
    assert t.LinkedUp(t.document);
    var whole := (e: nat) => Selected(t, [tokens], t.document, e);
    forall e | e in all ensures !whole(e) {
      DescendantMembers(t, t.document, e);
      if whole(e) {
        NoLeader(t, tokens, e);
      }
    }
    FilterNone(all, whole);
    FilterCongruent(all, whole, (e: nat) => Selected(t, [tokens], t.document, e));
  }

  lemma NoLeader(t: Tree, tokens: seq<Token>, e: nat)
    requires t.Valid() && LeadsWithId(tokens) && t.IsElement(e) && t.IsAncestor(t.document, e)
    requires Satisfies(t, tokens, t.document, e)
    ensures exists x: nat :: HasId(t, t.document, tokens[0].test.id, x)
  {
    hide Related, AllHold, Tree.IsAncestor, Tree.Valid;
    var es :| Assigns(t, None, tokens, t.document, es) && es[|es| - 1] == e;
    var test := tokens[0].test;
    assert tokens == [Simple(test), Relative(tokens[1].combinator)] + tokens[2..];
    FrontSplit(test, tokens[1].combinator, tokens[2..]);
    AssignedInDocument(t, tokens, es);
    assert AllHold(t, es[0], [test]);
    FirstHasId(t, test.id, es[0]);
  }

  lemma FirstHasId(t: Tree, id: string, x: nat)
    requires t.Valid() && t.IsElement(x) && t.IsAncestor(t.document, x) && AllHold(t, x, [Id(id)])
    ensures HasId(t, t.document, id, x)
  {
    assert Holds(t, x, [Id(id)][0]);
  }
}
