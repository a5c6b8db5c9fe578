/**
 What a selector means, and the closures the compiler builds for it.

 The closures are written as a datatype, with their plain evaluation beside it; the cached
 evaluation is in module Engine.
 */
module Selectors {
  import opened Sequences
  import opened Dom

  datatype Combinator = Child | Descendant | Adjacent | Sibling {
    /** The link followed to find the left-hand element. */
    function Dir(): Direction {
      if this == Child || this == Descendant then ParentNode else PreviousSiblingNode
    }

    /** Whether only the closest element is tried. */
    predicate First() {
      this == Child || this == Adjacent
    }
  }

  datatype Direction = ParentNode | PreviousSiblingNode

  datatype AttrOperator = Exists | Equals | NotEquals | StartsWith | Includes | EndsWith | Word | Dash

  datatype ChildKind = Only | First | Last | Nth | NthLast

  datatype Test =
    | Tag(name: string)
    | Id(id: string)
    | Class(class_: string)
    | Attr(attr: string, operator: AttrOperator, check: string)
    | ChildTest(kind: ChildKind, ofType: bool, a: int, b: int)

  datatype Token = Relative(combinator: Combinator) | Simple(test: Test)

  // ---------------------------------------------------------------- simple tests

  function Blank(c: char): bool {
    c == ' ' || c == '\t' || c == '\r' || c == '\n' || c == '\U{000C}'
  }

  /** Every run of white space becomes one blank. */
  function CollapseBlanks(s: string): string {
    if s == [] then []
    else if !Blank(s[0]) then [s[0]] + CollapseBlanks(s[1..])
    else if |s| > 1 && Blank(s[1]) then CollapseBlanks(s[1..])
    else [' '] + CollapseBlanks(s[1..])
  }

  /** A word without blanks, as `~=` is meant to look for. */
  predicate IsWord(check: string) {
    check != "" && forall i :: 0 <= i < |check| ==> !Blank(check[i])
  }

  /** check stands in v with blanks, or the ends of v, on both sides. */
  predicate StandsIn(v: string, check: string, front: string, back: string) {
    && v == front + check + back
    && (front == "" || Blank(front[|front| - 1])) && (back == "" || Blank(back[0]))
  }

  /** check is one of the blank-separated words of v. */
  ghost predicate HasWord(v: string, check: string) {
    exists front, back :: StandsIn(v, check, front, back)
  }

  /**
   What an attribute test says of the value (Selectors Level 3, section 6.3; `!=` is the repository's own). For a
   check that is no word, `~=` finds it between blanks in the text with its runs of blanks collapsed.
   */
  ghost predicate AttrMeans(value: Option<string>, operator: AttrOperator, check: string) {
    match value
    case None => operator == NotEquals
    case Some(v) =>
      match operator
      case Exists => true
      case Equals => v == check
      case NotEquals => v != check
      case StartsWith => check != "" && exists rest: string :: v == check + rest
      case Includes => check != "" && exists front: string, back: string :: v == front + check + back
      case EndsWith => check != "" && exists front: string :: v == front + check
      case Word =>
        if IsWord(check) then HasWord(v, check)
        else exists front: string, back: string ::
          " " + CollapseBlanks(v) + " " == front + (" " + check + " ") + back
      case Dash => v == check || exists rest: string :: v == check + "-" + rest
  }

  /** Whether the position of e among its siblings counts x. */
  predicate Counts(t: Tree, e: nat, ofType: bool, x: nat) {
    && x < |t.nodes|
    && e < |t.nodes|
    && if ofType then t.nodes[x].name == t.nodes[e].name else t.IsElement(x)
  }

  /** How many of ks the position of e counts. */
  ghost function Count(t: Tree, e: nat, ofType: bool, ks: seq<nat>): nat {
    if ks == [] then 0
    else Count(t, e, ofType, ks[..|ks| - 1]) + if Counts(t, e, ofType, ks[|ks| - 1]) then 1 else 0
  }

  function Siblings(t: Tree, e: nat): (ks: seq<nat>)
    requires t.Valid() && e < |t.nodes| && t.nodes[e].parent.Some?
    ensures t.Position(e) < |ks| && ks[t.Position(e)] == e
    ensures forall k :: k in ks ==> k < |t.nodes|
  {
    assert t.LinkedUp(e) && t.LinkedDown(t.nodes[e].parent.value);
    t.nodes[t.nodes[e].parent.value].kids
  }

  /** The 1-based position of e among the siblings it is counted with, from the first or the last. */
  ghost function IndexAmong(t: Tree, e: nat, ofType: bool, fromLast: bool): nat
    requires t.Valid() && e < |t.nodes| && t.nodes[e].parent.Some?
  {
    var i := t.Position(e);
    if fromLast then Count(t, e, ofType, Siblings(t, e)[i..])
    else Count(t, e, ofType, Siblings(t, e)[..i + 1])
  }

  /** Some non-negative n gives a*n + b == index: the an+b notation of the nth pseudo-classes. */
  ghost predicate InProgression(a: int, b: int, index: int) {
    exists n: nat :: a * n + b == index
  }

  ghost predicate ChildHolds(t: Tree, e: nat, kind: ChildKind, ofType: bool, a: int, b: int)
    requires t.Valid() && e < |t.nodes|
  {
    t.nodes[e].parent.Some? &&
    match kind
    case First => IndexAmong(t, e, ofType, false) == 1
    case Last => IndexAmong(t, e, ofType, true) == 1
    case Only => IndexAmong(t, e, ofType, false) == 1 && IndexAmong(t, e, ofType, true) == 1
    case Nth => InProgression(a, b, IndexAmong(t, e, ofType, false))
    case NthLast => InProgression(a, b, IndexAmong(t, e, ofType, true))
  }

  ghost predicate Holds(t: Tree, e: nat, test: Test)
    requires t.Valid() && e < |t.nodes|
  {
    match test
    case Tag(name) => name == "*" || t.nodes[e].name == name
    case Id(id) => t.nodes[e].id == Some(id)
    case Class(c) => c in t.nodes[e].classes
    case Attr(attr, op, check) =>
      AttrMeans(if attr in t.nodes[e].attrs then Some(t.nodes[e].attrs[attr]) else None, op, check)
    case ChildTest(kind, ofType, a, b) => ChildHolds(t, e, kind, ofType, a, b)
  }

  // ---------------------------------------------------------------- what a selector means

  /** a stands to e as the combinator c asks (Selectors Level 3, section 8). */
  ghost predicate Related(t: Tree, c: Combinator, a: nat, e: nat)
    requires t.Valid() && e < |t.nodes|
  {
    match c
    case Child => t.nodes[e].parent == Some(a)
    case Descendant => t.IsAncestor(a, e)
    case Sibling => IsEarlierSibling(t, a, e)
    case Adjacent =>
      && IsEarlierSibling(t, a, e)
      && forall x :: IsEarlierSibling(t, a, x) && IsEarlierSibling(t, x, e) ==> !t.IsElement(x)
  }

  ghost predicate IsEarlierSibling(t: Tree, a: nat, e: nat)
    requires t.Valid()
  {
    t.SameParent(a, e) && t.Position(a) < t.Position(e)
  }

  /** The selector's compounds, split at its combinators; a combinator at the end leaves an empty one. */
  ghost function Compounds(body: seq<Token>): (cs: seq<seq<Test>>)
    ensures |cs| == |Combinators(body)| + 1
  {
    if body == [] then [[]]
    else
      var cs := Compounds(body[..|body| - 1]);
      match body[|body| - 1]
      case Relative(_) => cs + [[]]
      case Simple(test) => cs[..|cs| - 1] + [cs[|cs| - 1] + [test]]
  }

  ghost function Combinators(body: seq<Token>): seq<Combinator> {
    if body == [] then []
    else
      match body[|body| - 1]
      case Relative(c) => Combinators(body[..|body| - 1]) + [c]
      case Simple(_) => Combinators(body[..|body| - 1])
  }

  function Leading(tokens: seq<Token>): Option<Combinator> {
    if tokens != [] && tokens[0].Relative? then Some(tokens[0].combinator) else None
  }

  function Body(tokens: seq<Token>): seq<Token> {
    if Leading(tokens).Some? then tokens[1..] else tokens
  }

  ghost predicate AllHold(t: Tree, e: nat, tests: seq<Test>)
    requires t.Valid() && e < |t.nodes|
  {
    forall i :: 0 <= i < |tests| ==> Holds(t, e, tests[i])
  }

  /**
   The leftmost element is anchored at the context: by the leading combinator when there is one,
   and otherwise by being inside the context, which the whole document always satisfies.
   */
  ghost predicate Anchored(t: Tree, leading: Option<Combinator>, context: nat, e: nat)
    requires t.Valid() && e < |t.nodes|
  {
    match leading
    case Some(c) => Related(t, c, context, e) && (c.Dir() == ParentNode || t.IsElement(context))
    case None => context == t.document || t.IsAncestor(context, e)
  }

  /** es assigns an element to each compound so that every test and combinator holds. */
  ghost predicate Assigns(t: Tree, leading: Option<Combinator>, body: seq<Token>, context: nat, es: seq<nat>): (b: bool)
    requires t.Valid()
    ensures b ==> es != []
  {
    var compounds, combinators := Compounds(body), Combinators(body);
    && |es| == |compounds|
    && (forall i :: 0 <= i < |es| ==> t.IsElement(es[i]))
    && (forall i :: 0 <= i < |es| ==> AllHold(t, es[i], compounds[i]))
    && (forall i :: 0 <= i < |combinators| ==> Related(t, combinators[i], es[i], es[i + 1]))
    && Anchored(t, leading, context, es[0])
  }

  /** e is the subject of the selector: some assignment ends with it. */
  ghost predicate Satisfies(t: Tree, tokens: seq<Token>, context: nat, e: nat)
    requires t.Valid()
  {
    exists es :: Assigns(t, Leading(tokens), Body(tokens), context, es) && es[|es| - 1] == e
  }

  // ---------------------------------------------------------------- the compiled closures

  datatype Matcher =
    | IsContext
    | Base(leading: Option<Combinator>, reach: Matcher)
    | TestMatcher(test: Test)
    | Every(all: seq<Matcher>)
    | Walk(inner: Matcher, combinator: Combinator, base: bool, name: nat)

  /** The node one link along. */
  function Step(t: Tree, dir: Direction, n: nat): (r: Option<nat>)
    requires t.Valid() && n < |t.nodes|
    ensures r.Some? ==> r.value < |t.nodes| && Rank(t, dir, r.value) < Rank(t, dir, n)
  {
    match dir
    case ParentNode => assert t.LinkedUp(n); t.Parent(n)
    case PreviousSiblingNode =>
      if t.PreviousSibling(n).Some? then
        PositionOfKid(t, t.nodes[n].parent.value, t.Position(n) - 1);
        t.PreviousSibling(n)
      else None
  }

  function Rank(t: Tree, dir: Direction, n: nat): nat
    requires t.Valid() && n < |t.nodes|
  {
    match dir
    case ParentNode => n
    case PreviousSiblingNode => t.Position(n)
  }

  /** The nodes the walk hands to its matcher: elements, and for the context check any ancestor. */
  predicate Visits(t: Tree, w: Matcher, n: nat)
    requires w.Walk?
  {
    t.IsElement(n) || (w.base && w.combinator.Dir() == ParentNode && n < |t.nodes|)
  }

  /** What a closure answers for node e when nothing is cached. */
  ghost predicate Eval(t: Tree, m: Matcher, context: nat, e: nat)
    requires t.Valid() && e < |t.nodes|
    decreases m, 1, 0
  {
    match m
    case IsContext => e == context
    case Base(leading, reach) => (leading.None? && context == t.document) || Eval(t, reach, context, e)
    case TestMatcher(test) => Holds(t, e, test)
    case Every(all) => forall i :: 0 <= i < |all| ==> Eval(t, all[i], context, e)
    case Walk(_, _, _, _) => Along(t, m, context, e)
  }

  /** Some node further along the walk's link, or the closest one for `>` and `+`, matches. */
  ghost predicate Along(t: Tree, w: Matcher, context: nat, e: nat)
    requires t.Valid() && e < |t.nodes| && w.Walk?
    decreases w, 0, Rank(t, w.combinator.Dir(), e), 0
  {
    match Step(t, w.combinator.Dir(), e)
    case None => false
    case Some(x) => Here(t, w, context, x)
  }

  /** Node x, or one further along, matches. */
  ghost predicate Here(t: Tree, w: Matcher, context: nat, x: nat)
    requires t.Valid() && x < |t.nodes| && w.Walk?
    decreases w, 0, Rank(t, w.combinator.Dir(), x), 1
  {
    if !Visits(t, w, x) then Along(t, w, context, x)
    else if w.combinator.First() then Eval(t, w.inner, context, x)
    else Eval(t, w.inner, context, x) || Along(t, w, context, x)
  }
}
