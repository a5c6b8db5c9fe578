/** The comparator used without native document positions, and the duplicate removal built on it. */
module SortOrder {
  import opened Sequences
  import opened Dom
  import opened DocumentOrder

  // ---------------------------------------------------------------- the comparator

  /** b is a sibling of a behind index i. */
  ghost predicate Ahead(t: Tree, a: nat, b: nat, i: nat)
    requires t.Valid()
  {
    t.SameParent(a, b) && i < t.Position(b)
  }

  /** -1 when b is found after a among their siblings, and otherwise by which of the two exists. */
  method SiblingCheck(t: Tree, a: Option<nat>, b: Option<nat>) returns (r: int)
    requires t.Valid() && (a.Some? ==> a.value < |t.nodes|) && (b.Some? ==> b.value < |t.nodes|)
    ensures a.None? ==> r < 0
    ensures a.Some? && b.None? ==> r > 0
    ensures a.Some? && b.Some? ==> r != 0
    ensures a.Some? && b.Some? ==> (r < 0 <==> Ahead(t, a.value, b.value, t.Position(a.value)))
  {
    if a.Some? && b.Some? && t.nodes[a.value].parent.None? {
      assert !Ahead(t, a.value, b.value, t.Position(a.value));
    }
    hide Ahead;
    var cur: Option<nat> := if b.Some? then a else None;
    if cur.Some? && t.nodes[a.value].parent.Some? {
      hide Tree.Valid, Tree.Position, Tree.NextSibling;
      PlaceOf(t, a.value);
      ghost var ks, i := t.nodes[t.nodes[a.value].parent.value].kids, t.Position(a.value);
      PassesBy(t, a.value, b.value, i);
      cur := t.NextSibling(cur.value);
      while cur.Some?
        invariant t.Position(a.value) <= i < |ks| && cur == (if i + 1 == |ks| then None else Some(ks[i + 1]))
        invariant Ahead(t, a.value, b.value, i) <==> Ahead(t, a.value, b.value, t.Position(a.value))
        decreases |ks| - i
      {
        i := i + 1;
        PassesBy(t, a.value, b.value, i);
        if cur == b {
          return -1;
        }
        cur := t.NextSibling(cur.value);
      }
    }
    r := if a.Some? then 1 else -1;
  }

  /** A scan of a's siblings at index i: where it goes next, and whether b is still ahead. */
  lemma PassesBy(t: Tree, a: nat, b: nat, i: nat)
    requires t.Valid() && a < |t.nodes| && b < |t.nodes| && t.nodes[a].parent.Some?
    requires t.nodes[a].parent.value < |t.nodes| && i < |t.nodes[t.nodes[a].parent.value].kids|
    ensures var ks := t.nodes[t.nodes[a].parent.value].kids;
      && t.Position(a) < |ks| && ks[i] < |t.nodes|
      && t.NextSibling(ks[i]) == (if i + 1 == |ks| then None else Some(ks[i + 1]))
      && (t.Position(a) < i && ks[i] == b ==> Ahead(t, a, b, t.Position(a)))
      && (ks[i] != b && i > 0 ==> (Ahead(t, a, b, i - 1) <==> Ahead(t, a, b, i)))
      && (Ahead(t, a, b, i) ==> i + 1 < |ks|)
  {
    PlaceOf(t, a);
    SiblingLinks(t, t.nodes[a].parent.value, i);
    if t.SameParent(a, b) {
      PlaceOf(t, b);
    }
  }

  /** A child stands in its parent's list at its position. */
  lemma PlaceOf(t: Tree, n: nat)
    requires t.Valid() && n < |t.nodes| && t.nodes[n].parent.Some?
    ensures var p := t.nodes[n].parent.value;
      p < |t.nodes| && t.Position(n) < |t.nodes[p].kids| && t.nodes[p].kids[t.Position(n)] == n
  {
    assert t.LinkedUp(n);
  }

  /** The nodes from the root of n's tree down to n. */
  function Path(t: Tree, n: nat): (path: seq<nat>)
    requires t.Valid() && n < |t.nodes|
    ensures path != [] && path[|path| - 1] == n
    ensures forall i :: 0 <= i < |path| ==> path[i] < |t.nodes|
    ensures t.nodes[path[0]].parent == None
    ensures forall i :: 0 <= i < |path| - 1 ==> t.nodes[path[i + 1]].parent == Some(path[i])
    decreases n
  {
    assert t.LinkedUp(n);
    match t.nodes[n].parent
    case None => [n]
    case Some(p) => Path(t, p) + [n]
  }

  lemma {:induction false} PathWithin(t: Tree, n: nat, i: nat)
    requires t.Valid() && n < |t.nodes| && i < |Path(t, n)|
    ensures Within(t, Path(t, n)[i], n)
    decreases n
  {
    assert t.LinkedUp(n);
    if i < |Path(t, n)| - 1 {
      PathWithin(t, t.nodes[n].parent.value, i);
    }
  }

  /** The list of a node's ancestors, built by putting each parent in front. */
  method AncestorList(t: Tree, n: nat) returns (path: seq<nat>)
    requires t.Valid() && n < |t.nodes|
    ensures path == Path(t, n)
  {
    hide Tree.Valid, Path;
    path := [n];
    var cur := n;
    assert path[1..] == [];
    while t.nodes[cur].parent.Some?
      invariant cur < |t.nodes| && path != [] && path[0] == cur
      invariant Path(t, n) == Path(t, cur) + path[1..]
      decreases cur
    {
      PathStep(t, cur);
      var p, rest := t.nodes[cur].parent.value, path[1..];
      assert path == [cur] + rest;
      assert Path(t, p) + [cur] + rest == Path(t, p) + path;
      assert ([p] + path)[1..] == path;
      cur := p;
      path := [cur] + path;
    }
    PathStep(t, cur);
  }

  lemma PathStep(t: Tree, n: nat)
    requires t.Valid() && n < |t.nodes|
    ensures match t.nodes[n].parent
      case None => Path(t, n) == [n]
      case Some(p) => p < n && Path(t, n) == Path(t, p) + [n]
  {
    assert t.LinkedUp(n);
  }

  function At(path: seq<nat>, i: nat): Option<nat> {
    if i < |path| then Some(path[i]) else None
  }

  /** x and y hang from one root. */
  ghost predicate SameTree(t: Tree, root: nat, a: nat, b: nat)
    requires t.Valid()
  {
    root < |t.nodes| && t.nodes[root].parent == None && Within(t, root, a) && Within(t, root, b)
  }

  lemma {:induction false} RootOfPath(t: Tree, root: nat, n: nat)
    requires t.Valid() && root < |t.nodes| && t.nodes[root].parent == None && Within(t, root, n)
    ensures Path(t, n)[0] == root
    decreases n
  {
    if n != root {
      assert t.LinkedUp(n);
      RootOfPath(t, root, t.nodes[n].parent.value);
    }
  }

  /**
   Where the paths of two nodes of one tree part: either one path has ended, at an ancestor of the
   other node, or the two continue into different children of one node.
   */
  lemma Fork(t: Tree, root: nat, a: nat, b: nat, i: nat)
    requires t.Valid() && SameTree(t, root, a, b) && a != b
    requires 0 < i <= |Path(t, a)| && i <= |Path(t, b)| && Path(t, a)[..i] == Path(t, b)[..i]
    requires At(Path(t, a), i) != At(Path(t, b), i)
    ensures i == |Path(t, a)| ==> i < |Path(t, b)| && Before(t.Preorder(root), a, b)
    ensures i == |Path(t, b)| ==> i < |Path(t, a)| && Before(t.Preorder(root), b, a)
    ensures i < |Path(t, a)| && i < |Path(t, b)| ==>
      var x, y := Path(t, a)[i], Path(t, b)[i];
      && t.SameParent(x, y) && t.Position(x) != t.Position(y)
      && (t.Position(x) < t.Position(y) ==> Before(t.Preorder(root), a, b))
      && (t.Position(y) < t.Position(x) ==> Before(t.Preorder(root), b, a))
  {
    var ap, bp := Path(t, a), Path(t, b);
    assert ap[i - 1] == ap[..i][i - 1] == bp[..i][i - 1] == bp[i - 1];
    if i == |ap| {
      PathWithin(t, b, i - 1);
      AncestorFirst(t, root, a, b);
    } else if i == |bp| {
      PathWithin(t, a, i - 1);
      AncestorFirst(t, root, b, a);
    } else {
      var x, y, p := ap[i], bp[i], ap[i - 1];
      PathWithin(t, a, i);
      PathWithin(t, b, i);
      RootOfPath(t, root, a);
      PrefixWithin(t, a, i - 1);
      if t.Position(x) == t.Position(y) {
        SamePosition(t, x, y);
      } else if t.Position(x) < t.Position(y) {
        EarlierSubtreeFirst(t, root, p, t.Position(x), t.Position(y), a, b);
      } else {
        EarlierSubtreeFirst(t, root, p, t.Position(y), t.Position(x), b, a);
      }
    }
  }

  /** Every node on the path is within its root. */
  lemma {:induction false} PrefixWithin(t: Tree, n: nat, i: nat)
    requires t.Valid() && n < |t.nodes| && i < |Path(t, n)|
    ensures Within(t, Path(t, n)[0], Path(t, n)[i])
    decreases i
  {
    if i > 0 {
      PrefixWithin(t, n, i - 1);
      assert t.LinkedUp(Path(t, n)[i]);
    }
  }

  /** The fork lies in the one tree that holds both nodes. */
  lemma ForkAnywhere(t: Tree, a: nat, b: nat, i: nat)
    requires t.Valid() && a < |t.nodes| && b < |t.nodes| && a != b
    requires 0 < i <= |Path(t, a)| && i <= |Path(t, b)| && Path(t, a)[..i] == Path(t, b)[..i]
    requires At(Path(t, a), i) != At(Path(t, b), i)
    ensures var root := Path(t, a)[0];
      && SameTree(t, root, a, b) && Path(t, b)[0] == root
      && (i == |Path(t, a)| ==> i < |Path(t, b)| && Before(t.Preorder(root), a, b))
      && (i == |Path(t, b)| ==> i < |Path(t, a)| && Before(t.Preorder(root), b, a))
      && !(Before(t.Preorder(root), a, b) && Before(t.Preorder(root), b, a))
      && (i < |Path(t, a)| && i < |Path(t, b)| ==>
            var x, y := Path(t, a)[i], Path(t, b)[i];
            && t.SameParent(x, y)
            && (t.Position(x) < t.Position(y) <==> Before(t.Preorder(root), a, b)))
  {
    var root := Path(t, a)[0];
    assert root == Path(t, a)[..i][0] == Path(t, b)[..i][0];
    PathWithin(t, a, 0);
    PathWithin(t, b, 0);
    Fork(t, root, a, b, i);
    PreorderDistinct(t, root);
    if Before(t.Preorder(root), a, b) { BeforeIsStrict(t.Preorder(root), a, b); }
  }

  /**
   r is a right answer for a and b. Two distinct nodes of one tree compare as they stand in tree
   order, except that the root of a tree other than the document comes after its descendants; and
   the nodes of the document sort before the others.
   */
  ghost predicate RightAnswer(t: Tree, a: nat, b: nat, r: int)
    requires t.Valid()
  {
    && (a == b ==> r == 0)
    && (forall root :: SameTree(t, root, a, b) && a != b ==>
         && r != 0
         && ((r < 0 <==> Before(t.Preorder(root), a, b)) <==> (root == t.document || (a != root && b != root))))
    && (Within(t, t.document, a) && !Within(t, t.document, b) ==> r < 0)
    && (!Within(t, t.document, a) && Within(t, t.document, b) ==> r > 0)
  }

  lemma RootAnswer(t: Tree, a: nat, b: nat)
    requires t.Valid() && a < |t.nodes| && b < |t.nodes| && a != b
    requires t.nodes[a].parent.None? || t.nodes[b].parent.None?
    ensures RightAnswer(t, a, b,
      if a == t.document then -1 else if b == t.document then 1
      else if t.nodes[a].parent.Some? then -1 else if t.nodes[b].parent.Some? then 1 else 0)
  {
    assert t.LinkedUp(t.document);
    forall root | SameTree(t, root, a, b)
      ensures t.nodes[a].parent.None? ==> root == a && t.nodes[b].parent.Some? && Before(t.Preorder(root), a, b)
      ensures t.nodes[b].parent.None? ==> root == b && t.nodes[a].parent.Some? && Before(t.Preorder(root), b, a)
      ensures !Before(t.Preorder(root), a, b) || !Before(t.Preorder(root), b, a)
    {
      if t.nodes[a].parent.None? { AncestorFirst(t, root, a, b); }
      if t.nodes[b].parent.None? { AncestorFirst(t, root, b, a); }
      PreorderDistinct(t, root);
      if Before(t.Preorder(root), a, b) { BeforeIsStrict(t.Preorder(root), a, b); }
    }
  }

  /** Below the fork, r decides as the two branches are ordered. */
  lemma ForkAnswer(t: Tree, a: nat, b: nat, i: nat, r: int)
    requires t.Valid() && a < |t.nodes| && b < |t.nodes| && a != b
    requires t.nodes[a].parent.Some? && t.nodes[b].parent.Some?
    requires 0 < i <= |Path(t, a)| && i <= |Path(t, b)| && Path(t, a)[..i] == Path(t, b)[..i]
    requires At(Path(t, a), i) != At(Path(t, b), i) && r != 0
    requires i == |Path(t, a)| ==> r < 0
    requires i < |Path(t, a)| && i == |Path(t, b)| ==> r > 0
    requires i < |Path(t, a)| && i < |Path(t, b)| ==>
      (r < 0 <==> t.SameParent(Path(t, a)[i], Path(t, b)[i]) &&
                  t.Position(Path(t, a)[i]) < t.Position(Path(t, b)[i]))
    ensures RightAnswer(t, a, b, r)
  {
    ForkAnywhere(t, a, b, i);
    var top := Path(t, a)[0];
    forall root | SameTree(t, root, a, b)
      ensures root == top && a != root && b != root
    {
      RootOfPath(t, root, a);
    }
    if Within(t, t.document, a) { RootOfPath(t, t.document, a); }
    if Within(t, t.document, b) { RootOfPath(t, t.document, b); }
    assert t.LinkedUp(t.document);
  }

  /** Nodes of different trees. */
  lemma ApartAnswer(t: Tree, a: nat, b: nat)
    requires t.Valid() && a < |t.nodes| && b < |t.nodes|
    requires Path(t, a)[0] != Path(t, b)[0]
    ensures RightAnswer(t, a, b,
      if Path(t, a)[0] == t.document then -1 else if Path(t, b)[0] == t.document then 1 else 0)
  {
    forall root | SameTree(t, root, a, b) ensures false {
      RootOfPath(t, root, a);
      RootOfPath(t, root, b);
    }
    assert t.LinkedUp(t.document);
    PathWithin(t, a, 0);
    PathWithin(t, b, 0);
    if Within(t, t.document, a) { RootOfPath(t, t.document, a); }
    if Within(t, t.document, b) { RootOfPath(t, t.document, b); }
  }

  lemma SiblingAnswer(t: Tree, a: nat, b: nat, r: int)
    requires t.Valid() && t.SameParent(a, b) && a != b && r != 0
    requires r < 0 <==> t.Position(a) < t.Position(b)
    ensures RightAnswer(t, a, b, r)
  {
    assert t.LinkedUp(a);
    var p := t.nodes[a].parent.value;
    assert Path(t, a)[..|Path(t, p)|] == Path(t, p) == Path(t, b)[..|Path(t, p)|];
    ForkAnswer(t, a, b, |Path(t, p)|, r);
  }

  /** Two different nodes' paths differ before both have ended. */
  lemma SamePathSameNode(t: Tree, a: nat, b: nat, i: nat)
    requires t.Valid() && a < |t.nodes| && b < |t.nodes| && a != b
    requires i <= |Path(t, a)| && i <= |Path(t, b)| && Path(t, a)[..i] == Path(t, b)[..i]
    requires At(Path(t, a), i) == At(Path(t, b), i)
    ensures i < |Path(t, a)| && i < |Path(t, b)|
    ensures Path(t, a)[..i + 1] == Path(t, b)[..i + 1]
  {
    hide Tree.Valid;
    var ap, bp := Path(t, a), Path(t, b);
    hide Path;
    assert ap[|ap| - 1] != bp[|bp| - 1];
    DifferentPaths(ap, bp, i);
  }

  lemma DifferentPaths(ap: seq<nat>, bp: seq<nat>, i: nat)
    requires ap != bp && i <= |ap| && i <= |bp| && ap[..i] == bp[..i] && At(ap, i) == At(bp, i)
    ensures i < |ap| && i < |bp| && ap[..i + 1] == bp[..i + 1]
  {
    assert ap[..|ap|] == ap && bp[..|bp|] == bp;
    if i < |ap| && i < |bp| {
      assert ap[..i + 1] == ap[..i] + [ap[i]] && bp[..i + 1] == bp[..i] + [bp[i]];
    }
  }

  method Compare(t: Tree, a: nat, b: nat) returns (r: int)
    requires t.Valid() && a < |t.nodes| && b < |t.nodes|
    ensures RightAnswer(t, a, b, r)
  {
    if a == b {
      return 0;
    }
    hide Tree.Valid, RightAnswer, Tree.Position, Path;
    var aup, bup := t.nodes[a].parent, t.nodes[b].parent;
    if aup.None? || bup.None? {
      RootAnswer(t, a, b);
      r := if a == t.document then -1 else if b == t.document then 1
           else if aup.Some? then -1 else if bup.Some? then 1 else 0;
      return;
    }
    if aup == bup {
      r := SiblingCheck(t, Some(a), Some(b));
      SiblingAnswer(t, a, b, r);
      return;
    }
    var ap := AncestorList(t, a);
    var bp := AncestorList(t, b);
    var i := 0;
    while At(ap, i) == At(bp, i)
      invariant 0 <= i <= |ap| && i <= |bp| && ap[..i] == bp[..i]
      decreases |ap| - i
    {
      SamePathSameNode(t, a, b, i);
      i := i + 1;
    }
    if i > 0 {
      r := SiblingCheck(t, At(ap, i), At(bp, i));
      ForkAnswer(t, a, b, i, r);
    } else {
      ApartAnswer(t, a, b);
      r := if ap[0] == t.document then -1 else if bp[0] == t.document then 1 else 0;
    }
  }

  // ---------------------------------------------------------------- sorting without repeats

  /** Document order totally orders the nodes of the document. */
  lemma DocumentOrderIsTotal(t: Tree, x: nat, y: nat, z: nat)
    requires t.Valid() && Within(t, t.document, x) && Within(t, t.document, y) && Within(t, t.document, z)
    ensures var s := t.Preorder(t.document);
      && !Before(s, x, x)
      && (x != y ==> Before(s, x, y) != Before(s, y, x))
      && (Before(s, x, y) && Before(s, y, z) ==> Before(s, x, z))
  {
    var s := t.Preorder(t.document);
    PreorderDistinct(t, t.document);
    PreorderMembers(t, t.document, x);
    PreorderMembers(t, t.document, y);
    if x != y {
      var i :| 0 <= i < |s| && s[i] == x;
      var j :| 0 <= j < |s| && s[j] == y;
      assert i < j ==> Before(s, x, y);
      assert j < i ==> Before(s, y, x);
    }
  }

  /** Listed in document order, possibly with repeats. */
  ghost predicate Ordered(order: seq<nat>, s: seq<nat>) {
    forall i, j :: 0 <= i < j < |s| ==> s[i] == s[j] || Before(order, s[i], s[j])
  }

  ghost predicate StrictlyOrdered(order: seq<nat>, s: seq<nat>) {
    forall i, j :: 0 <= i < j < |s| ==> Before(order, s[i], s[j])
  }

  /** Nodes of the document that the comparator's answers put in order are listed in document order. */
  lemma ComparedIsOrdered(t: Tree, s: seq<nat>, answer: (nat, nat) -> int)
    requires t.Valid() && forall i :: 0 <= i < |s| ==> Within(t, t.document, s[i])
    requires forall i, j :: 0 <= i < j < |s| ==>
      RightAnswer(t, s[i], s[j], answer(s[i], s[j])) && answer(s[i], s[j]) <= 0
    ensures Ordered(t.Preorder(t.document), s)
  {
    assert t.LinkedUp(t.document);
    hide Tree.Valid, Within;
    forall i, j | 0 <= i < j < |s| && s[i] != s[j] ensures Before(t.Preorder(t.document), s[i], s[j]) {
      assert SameTree(t, t.document, s[i], s[j]);
      assert RightAnswer(t, s[i], s[j], answer(s[i], s[j]));
    }
  }

  /** What is left of s from m on when elements equal to their predecessor are dropped. */
  ghost function KeptFrom(s: seq<nat>, m: nat): seq<nat>
    requires m <= |s|
    decreases |s| - m
  {
    if m == |s| then []
    else if m > 0 && s[m - 1] == s[m] then KeptFrom(s, m + 1)
    else [s[m]] + KeptFrom(s, m + 1)
  }

  lemma {:induction false} KeptMembers(s: seq<nat>, m: nat)
    requires m <= |s|
    ensures forall x :: x in KeptFrom(s, m) ==> x in s[m..]
    ensures forall x :: x in s[m..] ==> x in KeptFrom(s, m) || (m > 0 && x == s[m - 1])
    decreases |s| - m
  {
    if m < |s| {
      KeptMembers(s, m + 1);
      assert s[m..] == [s[m]] + s[m + 1..];
    }
  }

  lemma {:induction false} KeptOrdered(order: seq<nat>, s: seq<nat>, m: nat)
    requires m <= |s| && Distinct(order) && Ordered(order, s)
    ensures StrictlyOrdered(order, KeptFrom(s, m))
    ensures forall x :: x in KeptFrom(s, m) && m > 0 ==> Before(order, s[m - 1], x)
    decreases |s| - m
  {
    hide Before, Distinct;
    if m < |s| {
      KeptOrdered(order, s, m + 1);
      assert forall x :: x in KeptFrom(s, m + 1) ==> Before(order, s[m], x);
      if m > 0 && s[m - 1] != s[m] {
        assert Before(order, s[m - 1], s[m]);
        forall x | x in KeptFrom(s, m) ensures Before(order, s[m - 1], x) {
          if x != s[m] {
            BeforeTransitive(order, s[m - 1], s[m], x);
          }
        }
      }
    }
  }

  lemma BeforeTransitive(order: seq<nat>, x: nat, y: nat, z: nat)
    requires Distinct(order) && Before(order, x, y) && Before(order, y, z)
    ensures Before(order, x, z)
  {
  }

  ghost predicate IsRepeat(s: seq<nat>, d: int) {
    0 < d < |s| && s[d - 1] == s[d]
  }

  /** Without repeats ahead, everything up to the next repeat is kept. */
  lemma {:induction false} KeptStretch(s: seq<nat>, m: nat, hi: nat)
    requires m <= hi <= |s| && forall k :: m <= k < hi ==> !IsRepeat(s, k)
    ensures KeptFrom(s, m) == s[m..hi] + KeptFrom(s, hi)
    decreases hi - m
  {
    hide IsRepeat;
    if m < hi {
      assert !IsRepeat(s, m);
      if m > 0 { RepeatTest(s, m); }
      KeptStretch(s, m + 1, hi);
      assert s[m..hi] + KeptFrom(s, hi) == [s[m]] + (s[m + 1..hi] + KeptFrom(s, hi));
    } else {
      assert s[m..hi] == [];
    }
  }

  /** The indexes below `upto` whose element repeats its predecessor, in increasing order. */
  ghost predicate Repeats(s: seq<nat>, duplicates: seq<nat>, upto: nat) {
    && (forall k :: 0 <= k < |duplicates| ==> duplicates[k] < upto && IsRepeat(s, duplicates[k]))
    && (forall k, l :: 0 <= k < l < |duplicates| ==> duplicates[k] < duplicates[l])
    && (forall d: nat :: d < upto && IsRepeat(s, d) ==> d in duplicates)
  }

  lemma RepeatTest(s: seq<nat>, d: nat)
    requires 0 < d < |s|
    ensures IsRepeat(s, d) <==> s[d - 1] == s[d]
  {
  }

  lemma RepeatsOneMore(s: seq<nat>, duplicates: seq<nat>, d: nat)
    requires 0 < d < |s| && Repeats(s, duplicates, d)
    ensures IsRepeat(s, d) ==> Repeats(s, duplicates + [d], d + 1)
    ensures !IsRepeat(s, d) ==> Repeats(s, duplicates, d + 1)
  {
    assert (duplicates + [d])[|duplicates|] == d;
    assert forall x :: x in duplicates ==> x in duplicates + [d];
  }

  /** Taking the last repeat away leaves the repeats below it, and there are none above it. */
  lemma LastRepeat(s: seq<nat>, duplicates: seq<nat>, upto: nat)
    requires duplicates != [] && upto <= |s| && Repeats(s, duplicates, upto)
    ensures var d := duplicates[|duplicates| - 1];
      && d < upto && IsRepeat(s, d)
      && Repeats(s, duplicates[..|duplicates| - 1], d)
      && (forall k :: d + 1 <= k < upto ==> !IsRepeat(s, k))
  {
    var rest, d := duplicates[..|duplicates| - 1], duplicates[|duplicates| - 1];
    assert duplicates == rest + [d];
    forall k: nat | d + 1 <= k < upto ensures !IsRepeat(s, k) {
    }
  }

  /**
   The duplicate removal after the sort. `sorted` is what the engine's sort made of the results, the same elements
   in some order; `hasDuplicate` was raised if the comparator met an element twice. No element is lost. If it was
   raised, none is left twice exactly when equal ones came to stand together; and what was sorted in document
   order is then listed strictly in document order.
   */
  method UniqueSort(t: Tree, results: seq<nat>, sorted: seq<nat>, hasDuplicate: bool) returns (unique: seq<nat>)
    requires t.Valid() && multiset(sorted) == multiset(results)
    ensures forall x :: x in unique <==> x in results
    ensures if hasDuplicate then Distinct(unique) <==> Together(sorted) else unique == sorted
    ensures Ordered(t.Preorder(t.document), sorted) && (hasDuplicate || Distinct(sorted)) ==>
      StrictlyOrdered(t.Preorder(t.document), unique)
  {
    hide *;
    KeptIsRight(t, results, sorted);
    unique := sorted;
    if !hasDuplicate {
      if Distinct(sorted) {
        KeptAll(sorted);
      }
      return;
    }
    var duplicates: seq<nat> := [];
    var i := 0;
    NoRepeatsYet(sorted);
    while i < |sorted|
      invariant 0 <= i <= |sorted|
      invariant Repeats(sorted, duplicates, if i < |sorted| then i + 1 else i)
    {
      i := i + 1;
      if i < |sorted| {
        RepeatsOneMore(sorted, duplicates, i);
        RepeatTest(sorted, i);
        if sorted[i - 1] == sorted[i] {
          duplicates := duplicates + [i];
        }
      }
    }
    var j := |duplicates|;
    ghost var hi := |sorted|;
    assert duplicates[..j] == duplicates;
    KeptAtEnd(sorted);
    while j > 0
      invariant 0 <= j <= |duplicates| && 0 <= hi <= |sorted|
      invariant Repeats(sorted, duplicates[..j], hi)
      invariant unique == sorted[..hi] + KeptFrom(sorted, hi)
    {
      LastRepeat(sorted, duplicates[..j], hi);
      assert duplicates[..j][..j - 1] == duplicates[..j - 1];
      j := j - 1;
      var d := duplicates[j];
      KeptStretch(sorted, d + 1, hi);
      KeptSkips(sorted, d);
      Splice(sorted, d, hi, KeptFrom(sorted, hi));
      unique := unique[..d] + unique[d + 1..];
      hi := d;
    }
    NoneLeft(sorted, hi);
  }

  /** No two stretches of equal elements are of the same element. */
  ghost predicate Together(s: seq<nat>) {
    TogetherFrom(s, 0)
  }

  ghost predicate TogetherFrom(s: seq<nat>, m: nat) {
    forall i, j :: m <= i < j < |s| && !IsRepeat(s, i) && !IsRepeat(s, j) ==> s[i] != s[j]
  }

  /** What is kept: the first element of each stretch. */
  ghost predicate Begins(s: seq<nat>, m: nat, x: nat) {
    exists k :: m <= k < |s| && !IsRepeat(s, k) && s[k] == x
  }

  lemma {:induction false} KeptBegins(s: seq<nat>, m: nat, x: nat)
    requires m <= |s|
    ensures x in KeptFrom(s, m) <==> Begins(s, m, x)
    decreases |s| - m
  {
    if m < |s| {
      KeptBegins(s, m + 1, x);
      if Begins(s, m, x) && !Begins(s, m + 1, x) {
        assert !IsRepeat(s, m) && s[m] == x;
      }
    }
  }

  lemma {:induction false} KeptDistinct(s: seq<nat>, m: nat)
    requires m <= |s|
    ensures Distinct(KeptFrom(s, m)) <==> TogetherFrom(s, m)
    decreases |s| - m
  {
    if m < |s| {
      KeptDistinct(s, m + 1);
      if IsRepeat(s, m) {
        assert TogetherFrom(s, m) <==> TogetherFrom(s, m + 1);
      } else {
        KeptBegins(s, m + 1, s[m]);
        DistinctFront(s[m], KeptFrom(s, m + 1));
        assert TogetherFrom(s, m) <==> TogetherFrom(s, m + 1) && !Begins(s, m + 1, s[m]) by {
          TogetherOneMore(s, m);
        }
      }
    }
  }

  lemma DistinctFront(x: nat, s: seq<nat>)
    ensures Distinct([x] + s) <==> Distinct(s) && x !in s
  {
    var all := [x] + s;
    assert forall k :: 0 <= k < |s| ==> s[k] == all[k + 1];
    if Distinct(s) && x !in s {
      forall i, j | 0 <= i < j < |all| ensures all[i] != all[j] {
        assert all[j] == s[j - 1];
      }
    }
    if Distinct(all) {
      forall i, j | 0 <= i < j < |s| ensures s[i] != s[j] {
        assert all[i + 1] == s[i] && all[j + 1] == s[j];
      }
      forall k | 0 <= k < |s| ensures s[k] != x {
        assert all[0] != all[k + 1];
      }
    }
  }

  lemma TogetherOneMore(s: seq<nat>, m: nat)
    requires m < |s| && !IsRepeat(s, m)
    ensures TogetherFrom(s, m) <==> TogetherFrom(s, m + 1) && !Begins(s, m + 1, s[m])
  {
    hide IsRepeat;
  }

  /** Dropping the repeats of the sorted results leaves what is asked for. */
  lemma KeptIsRight(t: Tree, results: seq<nat>, sorted: seq<nat>)
    requires t.Valid() && multiset(sorted) == multiset(results)
    ensures Ordered(t.Preorder(t.document), sorted) ==> StrictlyOrdered(t.Preorder(t.document), KeptFrom(sorted, 0))
    ensures Distinct(KeptFrom(sorted, 0)) <==> Together(sorted)
    ensures forall x :: x in KeptFrom(sorted, 0) <==> x in results
    ensures forall x :: x in sorted <==> x in results
  {
    PreorderDistinct(t, t.document);
    hide Tree.Preorder, Before, Distinct, TogetherFrom;
    if Ordered(t.Preorder(t.document), sorted) {
      KeptOrdered(t.Preorder(t.document), sorted, 0);
    }
    KeptMembers(sorted, 0);
    KeptDistinct(sorted, 0);
    assert sorted[0..] == sorted;
    assert forall x :: x in sorted <==> x in multiset(sorted);
    assert forall x :: x in results <==> x in multiset(results);
  }

  lemma KeptAll(s: seq<nat>)
    requires Distinct(s)
    ensures KeptFrom(s, 0) == s
  {
    KeptStretch(s, 0, |s|);
  }

  lemma KeptAtEnd(s: seq<nat>)
    ensures s == s[..|s|] + KeptFrom(s, |s|)
  {
  }

  lemma NoRepeatsYet(s: seq<nat>)
    ensures Repeats(s, [], if s == [] then 0 else 1)
  {
  }

  lemma NoneLeft(s: seq<nat>, hi: nat)
    requires hi <= |s| && Repeats(s, [], hi)
    ensures KeptFrom(s, 0) == s[..hi] + KeptFrom(s, hi)
  {
    KeptStretch(s, 0, hi);
    assert s[0..hi] == s[..hi];
  }

  lemma KeptSkips(s: seq<nat>, d: nat)
    requires IsRepeat(s, d)
    ensures KeptFrom(s, d) == KeptFrom(s, d + 1)
  {
  }

  lemma Splice(s: seq<nat>, d: nat, hi: nat, rest: seq<nat>)
    requires d < hi <= |s|
    ensures (s[..hi] + rest)[..d] == s[..d]
    ensures (s[..hi] + rest)[d + 1..] == s[d + 1..hi] + rest
  {
  }
}
