/**
 Whole queries without caches: what is looked up, compiled and scanned, and that in a safe order this is the full
 scan.
 */
module QueryRuns {
  import opened Sequences
  import opened Dom
  import opened Selectors
  import opened SelectorCompiler
  import opened DocumentOrder
  import opened Outcomes
  import opened SafeOrder
  import opened QueryPlan
  import opened CarefulSelectors

  ghost function KeepSelected(t: Tree, elems: seq<nat>, groups: seq<seq<Token>>, context: nat): seq<nat>
    requires t.Valid()
  {
    Filter(elems, (e: nat) => Selected(t, groups, context, e))
  }

  lemma AcceptedIsSelected(t: Tree, elems: seq<nat>, matchers: seq<Matcher>, groups: seq<seq<Token>>, context: nat)
    requires t.Valid() && context < |t.nodes| && |matchers| == |groups|
    requires forall e :: e in elems ==> t.IsElement(e)
    requires forall k :: 0 <= k < |groups| ==> Compiles(matchers[k], groups[|groups| - 1 - k])
    ensures KeepAccepted(t, elems, matchers, context) == KeepSelected(t, elems, groups, context)
  {
    hide Eval, Satisfies, Tree.Valid;
    var accepted := (e: nat) => Accepted(t, matchers, context, e);
    var selected := (e: nat) => Selected(t, groups, context, e);
    forall e | e in elems ensures accepted(e) <==> selected(e) {
      if accepted(e) {
        var k :| 0 <= k < |matchers| && Eval(t, matchers[k], context, e);
        assert Satisfies(t, groups[|groups| - 1 - k], context, e);
      }
      if selected(e) {
        var g :| 0 <= g < |groups| && Satisfies(t, groups[g], context, e);
        assert Compiles(matchers[|groups| - 1 - g], groups[g]);
        assert Eval(t, matchers[|groups| - 1 - g], context, e);
      }
    }
    FilterCongruent(elems, (e: nat) => Accepted(t, matchers, context, e), selected);
    FilterCongruent(elems, selected, (e: nat) => Selected(t, groups, context, e));
  }

  lemma FindElements(t: Tree, test: Test, context: nat)
    requires t.Valid() && context < |t.nodes| && Find(t, test, context).Some?
    ensures forall e :: e in Find(t, test, context).value ==> t.IsElement(e)
  {
    var all := Filter(t.Descendants(context), (e: nat) => LooksUp(t, test, e));
    assert forall e :: e in all ==> t.IsElement(e);
    assert all != [] ==> all[0] in all;
  }

  /** Looking up an id in the document finds an element with that id, if there is one. */
  lemma FoundById(t: Tree, id: string)
    requires t.Valid()
    ensures Find(t, Id(id), t.document).Some?
    ensures var found := Find(t, Id(id), t.document).value;
      && (found == [] ==> forall x: nat :: !HasId(t, t.document, id, x))
      && (found != [] ==> found[0] < |t.nodes| && HasId(t, t.document, id, found[0]))
  {
    var all := Filter(t.Descendants(t.document), (e: nat) => LooksUp(t, Id(id), e));
    forall x: nat ensures HasId(t, t.document, id, x) <==> x in all {
      DescendantMembers(t, t.document, x);
    }
    assert all != [] ==> all[0] in all;
  }

  /** Looking up `*` finds all the elements below the node. */
  lemma FindAll(t: Tree, root: nat, groups: seq<seq<Token>>, context: nat)
    requires t.Valid() && context < |t.nodes| && root < |t.nodes|
    ensures Find(t, Tag("*"), root).Some?
    ensures forall e :: e in Find(t, Tag("*"), root).value ==> t.IsElement(e)
    ensures KeepSelected(t, Find(t, Tag("*"), root).value, groups, context) ==
            KeepSelected(t, t.Descendants(root), groups, context)
  {
    hide Satisfies;
    var selected := (e: nat) => Selected(t, groups, context, e);
    var found := Filter(t.Descendants(root), (e: nat) => LooksUp(t, Tag("*"), e));
    FilterFilter(t.Descendants(root), (e: nat) => LooksUp(t, Tag("*"), e), selected, selected);
    FilterCongruent(found, selected, (e: nat) => Selected(t, groups, context, e));
    FilterCongruent(t.Descendants(root), selected, (e: nat) => Selected(t, groups, context, e));
  }

  /** What is kept of the scanned elements is the full scan. */
  lemma ScanIsFull(t: Tree, groups: seq<seq<Token>>, context: nat, siblings: bool)
    requires t.Valid() && context < |t.nodes|
    requires !siblings ==> forall g :: 0 <= g < |groups| ==>
      Relative(Adjacent) !in groups[g] && Relative(Sibling) !in groups[g]
    ensures var outermost := if siblings then Surroundings(t, context) else context;
      KeepSelected(t, t.Descendants(outermost), groups, context) == FullScan(t, groups, context)
  {
    hide Satisfies;
    if !siblings {
      NoLeadingSibling(groups);
      InnerScan(t, groups, context);
    }
    var outermost := if siblings then Surroundings(t, context) else context;
    var selected := (e: nat) => Selected(t, groups, context, e);
    FilterCongruent(t.Descendants(outermost), selected, (e: nat) => Selected(t, groups, context, e));
    FilterCongruent(t.Descendants(context), selected, (e: nat) => Selected(t, groups, context, e));
  }

  /** Seeding keeps the seed's elements that the rest selects. */
  lemma SeededKeeps(t: Tree, tokens: seq<Token>, context: nat, i: nat)
    requires t.Valid() && context < |t.nodes| && i < |tokens|
    requires tokens[i].Simple? && Find(t, tokens[i].test, context).Some?
    ensures var seed, rest := Find(t, tokens[i].test, context).value, Without(tokens, i);
      Seeded(t, tokens, context, i) ==
      if seed == [] || rest == [] then seed else KeepSelected(t, seed, [rest], context)
  {
    hide Satisfies;
    var seed, rest := Find(t, tokens[i].test, context).value, Without(tokens, i);
    var selected := (e: nat) => Selected(t, [rest], context, e);
    FilterCongruent(seed, selected, (e: nat) => Selected(t, [rest], context, e));
  }

  lemma NoLeadingSibling(groups: seq<seq<Token>>)
    requires forall g :: 0 <= g < |groups| ==>
      Relative(Adjacent) !in groups[g] && Relative(Sibling) !in groups[g]
    ensures forall g :: 0 <= g < |groups| ==>
      Leading(groups[g]) != Some(Adjacent) && Leading(groups[g]) != Some(Sibling)
  {
    forall g | 0 <= g < |groups| && groups[g] != []
      ensures Leading(groups[g]) != Some(Adjacent) && Leading(groups[g]) != Some(Sibling)
    {
      assert groups[g][0] in groups[g];
    }
  }

  /** What has been looked up is in the order of the document. */
  lemma FoundInOrder(t: Tree, test: Test, context: nat)
    requires t.Valid() && context < |t.nodes| && Find(t, test, context).Some?
    ensures InOrder(t, Top(t, context), Find(t, test, context).value)
  {
    var top := Top(t, context);
    FindElements(t, test, context);
    var all, found := t.Descendants(context), Filter(t.Descendants(context), (e: nat) => LooksUp(t, test, e));
    var pre, post := DocumentOrder.Stretch(t, top, context);
    forall i, j | 0 <= i < j < |found| ensures Before(t.Preorder(top), found[i], found[j]) {
      FilterKeepsOrder(all, (e: nat) => LooksUp(t, test, e), i, j);
      BeforeInStretch([context], all, [], found[i], found[j]);
      assert [context] + all + [] == t.Preorder(context);
      BeforeInStretch(pre, t.Preorder(context), post, found[i], found[j]);
    }
  }

  lemma {:induction false} FilterKeepsOrder(s: seq<nat>, p: nat -> bool, i: nat, j: nat)
    requires i < j < |Filter(s, p)|
    ensures Before(s, Filter(s, p)[i], Filter(s, p)[j])
  {
    if !p(s[0]) {
      FilterKeepsOrder(s[1..], p, i, j);
      BeforeInStretch([s[0]], s[1..], [], Filter(s, p)[i], Filter(s, p)[j]);
      assert [s[0]] + s[1..] + [] == s;
    } else if i > 0 {
      FilterKeepsOrder(s[1..], p, i - 1, j - 1);
      BeforeInStretch([s[0]], s[1..], [], Filter(s, p)[i], Filter(s, p)[j]);
      assert [s[0]] + s[1..] + [] == s;
    } else {
      assert Filter(s, p)[j] in Filter(s[1..], p);
      BeforeAcross([s[0]], s[1..], s[0], Filter(s, p)[j]);
      assert [s[0]] + s[1..] == s;
    }
  }

  // ---------------------------------------------------------------- the run of a query

  /** The search starts at the element of a leading id. */
  ghost predicate StartsAtId(t: Tree, groups: seq<seq<Token>>, context: nat) {
    |groups| == 1 && LeadsWithId(groups[0]) && context == t.document
  }

  lemma InDocument(t: Tree, id: string, x: nat)
    requires t.Valid() && HasId(t, t.document, id, x)
    ensures Within(t, t.document, x)
  {
  }

  /** The compiled groups, last group first. */
  function Compiled(groups: seq<seq<Token>>): seq<Matcher> {
    seq(|groups|, i requires 0 <= i < |groups| => Closure(groups[|groups| - 1 - i], 0))
  }

  /** The compiled groups over the elements, with nothing tested before. */
  ghost function RunOver(t: Tree, elems: seq<nat>, groups: seq<seq<Token>>, context: nat): seq<nat>
    requires t.Valid()
  {
    Scan(t, elems, 0, Compiled(groups), context, map[])
  }

  /** The token that is looked up for the seed, if the query is seeded. */
  function SeedIndex(t: Tree, groups: seq<seq<Token>>, context: nat, positional: bool): (r: Option<nat>)
    requires t.Valid() && context < |t.nodes|
    ensures r.Some? ==> |groups| == 1 && r == SeedBefore(t, groups[0], context, |groups[0]|) && r.value < |groups[0]|
    ensures r.Some? ==> groups[0][r.value].Simple? && Find(t, groups[0][r.value].test, context).Some?
  {
    if |groups| == 1 && !positional && !NeedsContext(groups[0])
    then SeedBefore(t, groups[0], context, |groups[0]|) else None
  }

  ghost function RunFrom(t: Tree, groups: seq<seq<Token>>, context: nat, positional: bool, siblings: bool): seq<nat>
    requires t.Valid() && context < |t.nodes|
  {
    match SeedIndex(t, groups, context, positional)
    case Some(i) =>
      var seed, rest := Find(t, groups[0][i].test, context).value, Without(groups[0], i);
      if seed == [] || rest == [] then seed else RunOver(t, seed, [rest], context)
    case None =>
      var outermost := if siblings then Surroundings(t, context) else context;
      RunOver(t, Find(t, Tag("*"), outermost).value, groups, context)
  }

  /** What a query comes to without caches; nothing of earlier queries has a part in it. */
  ghost function QueryRun(t: Tree, groups: seq<seq<Token>>, context: nat, positional: bool, siblings: bool): seq<nat>
    requires t.Valid() && context < |t.nodes|
  {
    if StartsAtId(t, groups, context) then
      FoundById(t, groups[0][0].test.id);
      var found := Find(t, groups[0][0].test, context).value;
      if found == [] then [] else RunFrom(t, [groups[0][1..]], found[0], positional, siblings)
    else RunFrom(t, groups, context, positional, siblings)
  }

  // ---------------------------------------------------------------- safe runs

  lemma CompiledMeans(groups: seq<seq<Token>>, k: Option<nat>)
    requires CarefulAt(groups, k)
    ensures AllTestAt(Compiled(groups), k)
  {
    forall j | 0 <= j < |groups| ensures TestsAt(Compiled(groups)[j], Some(0), k) {
      CarefulClosure(groups[|groups| - 1 - j], 0, k);
    }
  }

  /** Careful groups, over elements in the order of the document, keep the elements that they select. */
  lemma SafeRun(t: Tree, top: nat, elems: seq<nat>, groups: seq<seq<Token>>, context: nat)
    requires t.Valid() && context < |t.nodes| && InOrder(t, top, elems) && Careful(groups)
    ensures RunOver(t, elems, groups, context) == KeepSelected(t, elems, groups, context)
  {
    hide Tree.Valid, CarefulAt, Closure, Compiles, Scan;
    var k :| CarefulAt(groups, k);
    CompiledMeans(groups, k);
    SafeFromStart(t, top, elems, Compiled(groups), context, k);
    forall j | 0 <= j < |groups| ensures Compiles(Compiled(groups)[j], groups[|groups| - 1 - j]) {
      ClosureCompiles(groups[|groups| - 1 - j], 0);
    }
    AcceptedIsSelected(t, elems, Compiled(groups), groups, context);
  }

  /** The run from a context, seeded or not. */
  lemma RunFromMeaning(t: Tree, groups: seq<seq<Token>>, context: nat, positional: bool, siblings: bool)
    requires t.Valid() && context < |t.nodes| && Careful(groups)
    requires !siblings ==> forall g :: 0 <= g < |groups| ==>
      Relative(Adjacent) !in groups[g] && Relative(Sibling) !in groups[g]
    ensures var i := SeedIndex(t, groups, context, positional);
      RunFrom(t, groups, context, positional, siblings) ==
      if i.Some? then Seeded(t, groups[0], context, i.value) else FullScan(t, groups, context)
  {
    hide Tree.Valid, Find, Satisfies, Scan, CarefulAt, InOrder, Closure, FullScan, KeepSelected, Tree.Descendants;
    match SeedIndex(t, groups, context, positional)
    case Some(i) =>
      var tokens := groups[0];
      var test := tokens[i].test;
      SeededKeeps(t, tokens, context, i);
      FoundInOrder(t, test, context);
      CarefulSeed(tokens, groups, i);
      SafeRun(t, Top(t, context), Find(t, test, context).value, [Without(tokens, i)], context);
    case None =>
      var outermost := if siblings then Surroundings(t, context) else context;
      ScanIsFull(t, groups, context, siblings);
      FindAll(t, outermost, groups, context);
      FoundInOrder(t, Tag("*"), outermost);
      SafeRun(t, Top(t, outermost), Find(t, Tag("*"), outermost).value, groups, context);
  }

  lemma CarefulSeed(tokens: seq<Token>, groups: seq<seq<Token>>, i: nat)
    requires Careful(groups) && |groups| == 1 && groups[0] == tokens
    requires i < |tokens| && forall j :: i <= j < |tokens| ==> tokens[j].Simple?
    ensures Careful([Without(tokens, i)])
  {
    hide CarefulAt;
    var k :| CarefulAt(groups, k);
    assert groups == [tokens];
    SeedTakenOut(tokens, i, k);
  }

  /** With unique ids the run is the full scan. */
  lemma RunFromIsFullScan(t: Tree, groups: seq<seq<Token>>, context: nat, positional: bool, siblings: bool)
    requires t.Valid() && context < |t.nodes| && Careful(groups) && forall id :: UniqueId(t, context, id)
    requires !siblings ==> forall g :: 0 <= g < |groups| ==>
      Relative(Adjacent) !in groups[g] && Relative(Sibling) !in groups[g]
    ensures RunFrom(t, groups, context, positional, siblings) == FullScan(t, groups, context)
  {
    hide Tree.Valid, Find, FullScan, UniqueId, RunFrom, Careful;
    RunFromMeaning(t, groups, context, positional, siblings);
    if SeedIndex(t, groups, context, positional).Some? {
      assert groups == [groups[0]];
      SeedingIsFullScan(t, groups[0], context);
    }
  }

  lemma CarefulTail(tokens: seq<Token>, groups: seq<seq<Token>>)
    requires Careful(groups) && groups == [tokens] && LeadsWithId(tokens)
    ensures Careful([tokens[1..]])
  {
    hide CarefulAt;
    var k :| CarefulAt(groups, k);
    LeadingIdTakenOut(tokens, k);
  }

  /** The whole query, with the leading-id reduction. */
  lemma QueryRunIsFullScan(t: Tree, groups: seq<seq<Token>>, context: nat, positional: bool, siblings: bool)
    requires t.Valid() && context < |t.nodes| && Careful(groups) && forall id :: UniqueId(t, context, id)
    requires !siblings ==> forall g :: 0 <= g < |groups| ==>
      Relative(Adjacent) !in groups[g] && Relative(Sibling) !in groups[g]
    ensures QueryRun(t, groups, context, positional, siblings) == FullScan(t, groups, context)
  {
    hide Tree.Valid, UniqueId, FullScan, HasId, Find, RunFrom, Careful;
    if StartsAtId(t, groups, context) {
      var tokens := groups[0];
      assert groups == [tokens];
      FoundById(t, tokens[0].test.id);
      var found := Find(t, tokens[0].test, context).value;
      if found == [] {
        NoLeadingId(t, tokens);
      } else {
        var top := found[0];
        ContextReduction(t, tokens, top);
        InDocument(t, tokens[0].test.id, top);
        forall id ensures UniqueId(t, top, id) {
          UniqueBelow(t, t.document, top, id);
        }
        CarefulTail(tokens, groups);
        RunFromIsFullScan(t, [tokens[1..]], top, positional, siblings);
      }
    } else {
      RunFromIsFullScan(t, groups, context, positional, siblings);
    }
  }
}
