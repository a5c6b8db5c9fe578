/** Document order: the preorder listing, what it contains, and what precedes what in it. */
module DocumentOrder {
  import opened Sequences
  import opened Dom

  // ---------------------------------------------------------------- ancestors

  lemma {:induction false} AncestorTransitive(t: Tree, a: nat, b: nat, n: nat)
    requires t.Valid() && b < |t.nodes| && n < |t.nodes|
    requires t.IsAncestor(a, b) && (b == n || t.IsAncestor(b, n))
    ensures t.IsAncestor(a, n)
    decreases n
  {
    if b != n && t.nodes[n].parent.value != b {
      assert t.LinkedUp(n);
      AncestorTransitive(t, a, b, t.nodes[n].parent.value);
    }
  }

  lemma {:induction false} AncestorsAreSmaller(t: Tree, a: nat, n: nat)
    requires t.Valid() && n < |t.nodes| && t.IsAncestor(a, n)
    ensures a < n && t.nodes[a].kids != []
    decreases n
  {
    assert t.LinkedUp(n);
    if t.nodes[n].parent.value != a {
      AncestorsAreSmaller(t, a, t.nodes[n].parent.value);
    }
  }

  /** Every strict descendant of a is in the subtree of one of its children. */
  lemma {:induction false} ThroughAChild(t: Tree, a: nat, n: nat) returns (k: nat)
    requires t.Valid() && a < |t.nodes| && n < |t.nodes| && t.IsAncestor(a, n)
    ensures k in t.nodes[a].kids && k < |t.nodes| && (k == n || t.IsAncestor(k, n))
    decreases n
  {
    assert t.LinkedUp(n) && t.LinkedDown(a);
    if t.nodes[n].parent.value == a {
      k := n;
    } else {
      k := ThroughAChild(t, a, t.nodes[n].parent.value);
    }
  }

  /** Of two ancestors of one node, one without a parent is the higher. */
  lemma {:induction false} AncestorsCompare(t: Tree, a: nat, d: nat, e: nat)
    requires t.Valid() && a < |t.nodes| && e < |t.nodes| && t.IsAncestor(a, e)
    requires d < |t.nodes| && t.nodes[d].parent == None && t.IsAncestor(d, e)
    ensures a == d || t.IsAncestor(d, a)
    decreases e
  {
    assert t.LinkedUp(e);
    var p := t.nodes[e].parent.value;
    if p != d && p != a {
      AncestorsCompare(t, a, d, p);
    }
  }

  // ---------------------------------------------------------------- what the listing contains

  /** x is n or a descendant of n. */
  ghost predicate Within(t: Tree, n: nat, x: nat)
    requires t.Valid()
  {
    x < |t.nodes| && (x == n || t.IsAncestor(n, x))
  }

  lemma {:induction false} PreorderMembers(t: Tree, n: nat, x: nat)
    requires t.Valid() && n < |t.nodes|
    ensures x in t.Preorder(n) <==> Within(t, n, x)
    decreases |t.nodes| - n, 0
  {
    assert t.LinkedDown(n);
    PreorderAllMembers(t, n, t.nodes[n].kids, x);
    if Within(t, n, x) && x != n {
      var k := ThroughAChild(t, n, x);
    }
    if k: nat :| k in t.nodes[n].kids && Within(t, k, x) {
      assert t.IsAncestor(n, k);
      AncestorTransitive(t, n, k, x);
    }
  }

  lemma {:induction false} PreorderAllMembers(t: Tree, n: nat, ks: seq<nat>, x: nat)
    requires t.Valid() && n < |t.nodes|
    requires forall k :: k in ks ==> n < k < |t.nodes|
    ensures x in t.PreorderAll(n, ks) <==> exists k :: k in ks && Within(t, k, x)
    decreases |t.nodes| - n, 0, |ks|
  {
    if ks != [] {
      assert ks[0] in ks && forall k :: k in ks[1..] ==> k in ks;
      PreorderMembers(t, ks[0], x);
      PreorderAllMembers(t, n, ks[1..], x);
      assert forall k :: k in ks ==> k == ks[0] || k in ks[1..];
    }
  }

  /** Two different children have disjoint subtrees. */
  lemma SubtreesDisjoint(t: Tree, j: nat, k: nat, x: nat)
    requires t.Valid() && t.SameParent(j, k) && Within(t, j, x) && Within(t, k, x)
    ensures j == k
    decreases x
  {
    assert t.LinkedUp(j) && t.LinkedUp(k);
    if x == j && x != k {
      assert t.IsAncestor(k, j);
      assert k == t.nodes[j].parent.value || t.IsAncestor(k, t.nodes[j].parent.value);
      if t.IsAncestor(k, t.nodes[j].parent.value) { AncestorsAreSmaller(t, k, t.nodes[j].parent.value); }
      assert false;
    } else if x == k && x != j {
      assert t.IsAncestor(j, k);
      assert j == t.nodes[k].parent.value || t.IsAncestor(j, t.nodes[k].parent.value);
      if t.IsAncestor(j, t.nodes[k].parent.value) { AncestorsAreSmaller(t, j, t.nodes[k].parent.value); }
      assert false;
    } else if x != j {
      assert t.LinkedUp(x);
      SubtreesDisjoint(t, j, k, t.nodes[x].parent.value);
    }
  }

  // ---------------------------------------------------------------- each node once

  lemma DistinctAppend(a: seq<nat>, b: seq<nat>)
    requires Distinct(a) && Distinct(b) && forall x :: x in a ==> x !in b
    ensures Distinct(a + b)
  {
    forall i, j | 0 <= i < j < |a + b| ensures (a + b)[i] != (a + b)[j] {
      if i < |a| <= j {
        assert a[i] in a && b[j - |a|] in b;
      }
    }
  }

  lemma {:induction false} PreorderDistinct(t: Tree, n: nat)
    requires t.Valid() && n < |t.nodes|
    ensures Distinct(t.Preorder(n))
    decreases |t.nodes| - n, 0
  {
    assert t.LinkedDown(n);
    var ks := t.nodes[n].kids;
    PreorderAllDistinct(t, n, ks);
    PreorderAllMembers(t, n, ks, n);
    if k: nat :| k in ks && Within(t, k, n) {
      if t.IsAncestor(k, n) { AncestorsAreSmaller(t, k, n); }
      assert false;
    }
    DistinctAppend([n], t.PreorderAll(n, ks));
  }

  lemma {:induction false} PreorderAllDistinct(t: Tree, n: nat, ks: seq<nat>)
    requires t.Valid() && n < |t.nodes|
    requires Distinct(ks) && forall k :: k in ks ==> n < k < |t.nodes| && t.nodes[k].parent == Some(n)
    ensures Distinct(t.PreorderAll(n, ks))
    decreases |t.nodes| - n, 0, |ks|
  {
    if ks != [] {
      assert ks[0] in ks && forall k :: k in ks[1..] ==> k in ks;
      PreorderDistinct(t, ks[0]);
      PreorderAllDistinct(t, n, ks[1..]);
      forall x | x in t.Preorder(ks[0]) ensures x !in t.PreorderAll(n, ks[1..]) {
        PreorderMembers(t, ks[0], x);
        PreorderAllMembers(t, n, ks[1..], x);
        if k: nat :| k in ks[1..] && Within(t, k, x) {
          SubtreesDisjoint(t, ks[0], k, x);
          assert false;
        }
      }
      DistinctAppend(t.Preorder(ks[0]), t.PreorderAll(n, ks[1..]));
    }
  }

  // ---------------------------------------------------------------- subtrees are contiguous

  lemma {:induction false} PreorderAllSplit(t: Tree, n: nat, ks: seq<nat>, i: nat)
    requires t.Valid() && n < |t.nodes| && i <= |ks|
    requires forall k :: k in ks ==> n < k < |t.nodes|
    ensures (forall k :: k in ks[..i] ==> k in ks) && (forall k :: k in ks[i..] ==> k in ks)
    ensures t.PreorderAll(n, ks) == t.PreorderAll(n, ks[..i]) + t.PreorderAll(n, ks[i..])
    decreases |ks|
  {
    if i == 0 {
      assert ks[..0] == [] && ks[0..] == ks;
    } else {
      assert ks[0] in ks && forall k :: k in ks[1..] ==> k in ks;
      PreorderAllSplit(t, n, ks[1..], i - 1);
      assert ks[..i][1..] == ks[1..][..i - 1] && ks[1..][i - 1..] == ks[i..];
    }
  }

  /** The listing of a child's subtree is a stretch of its parent's. */
  lemma ChildStretch(t: Tree, n: nat, i: nat) returns (pre: seq<nat>, post: seq<nat>)
    requires t.Valid() && n < |t.nodes| && i < |t.nodes[n].kids|
    ensures t.nodes[n].kids[i] < |t.nodes|
    ensures t.Preorder(n) == pre + t.Preorder(t.nodes[n].kids[i]) + post
  {
    assert t.LinkedDown(n);
    var ks := t.nodes[n].kids;
    assert ks[i] in ks;
    PreorderAllSplit(t, n, ks, i);
    assert ks[i..][0] == ks[i] && ks[i..][1..] == ks[i + 1..];
    var earlier, later := ks[..i], ks[i + 1..];
    assert (forall k :: k in earlier ==> k in ks) && forall k :: k in later ==> k in ks;
    pre, post := [n] + t.PreorderAll(n, earlier), t.PreorderAll(n, later);
    calc {
      t.Preorder(n);
      [n] + (t.PreorderAll(n, ks[..i]) + t.PreorderAll(n, ks[i..]));
      { assert t.PreorderAll(n, ks[i..]) == t.Preorder(ks[i]) + post; }
      [n] + (t.PreorderAll(n, ks[..i]) + (t.Preorder(ks[i]) + post));
      pre + t.Preorder(ks[i]) + post;
    }
  }

  /** The listing of any subtree is a stretch of the listing of whatever contains it. */
  lemma {:induction false} Stretch(t: Tree, n: nat, m: nat) returns (pre: seq<nat>, post: seq<nat>)
    requires t.Valid() && n < |t.nodes| && Within(t, n, m)
    ensures t.Preorder(n) == pre + t.Preorder(m) + post
    decreases m
  {
    if m == n {
      pre, post := [], [];
      assert t.Preorder(n) == [] + t.Preorder(n) + [];
    } else {
      assert t.LinkedUp(m);
      var p := t.nodes[m].parent.value;
      var pre1, post1 := Stretch(t, n, p);
      var pre2, post2 := ChildStretch(t, p, t.Position(m));
      pre, post := pre1 + pre2, post2 + post1;
      assert pre1 + (pre2 + t.Preorder(m) + post2) + post1 == pre + t.Preorder(m) + post;
    }
  }

  // ---------------------------------------------------------------- which comes first

  /** x stands before y in the list. */
  ghost predicate Before(s: seq<nat>, x: nat, y: nat) {
    exists i, j :: 0 <= i < j < |s| && s[i] == x && s[j] == y
  }

  lemma BeforeInStretch(pre: seq<nat>, s: seq<nat>, post: seq<nat>, x: nat, y: nat)
    requires Before(s, x, y)
    ensures Before(pre + s + post, x, y)
  {
    var i, j :| 0 <= i < j < |s| && s[i] == x && s[j] == y;
    var all := pre + s + post;
    assert all[|pre| + i] == x && all[|pre| + j] == y;
  }

  lemma BeforeAcross(a: seq<nat>, b: seq<nat>, x: nat, y: nat)
    requires x in a && y in b
    ensures Before(a + b, x, y)
  {
    var i :| 0 <= i < |a| && a[i] == x;
    var j :| 0 <= j < |b| && b[j] == y;
    assert (a + b)[i] == x && (a + b)[|a| + j] == y;
  }

  lemma BeforeIsStrict(s: seq<nat>, x: nat, y: nat)
    requires Distinct(s) && Before(s, x, y)
    ensures !Before(s, y, x) && x != y
  {
  }

  /** An ancestor precedes its descendants. */
  lemma AncestorFirst(t: Tree, root: nat, a: nat, n: nat)
    requires t.Valid() && root < |t.nodes| && Within(t, root, a) && n < |t.nodes| && t.IsAncestor(a, n)
    ensures Before(t.Preorder(root), a, n)
  {
    var pre, post := Stretch(t, root, a);
    PreorderMembers(t, a, n);
    AncestorsAreSmaller(t, a, n);
    assert t.Preorder(a) == [a] + t.Preorder(a)[1..];
    assert n in t.Preorder(a)[1..];
    BeforeAcross([a], t.Preorder(a)[1..], a, n);
    BeforeInStretch(pre, t.Preorder(a), post, a, n);
  }

  /** The subtree of an earlier sibling comes before the subtree of a later one. */
  lemma EarlierSubtreeFirst(t: Tree, root: nat, p: nat, i: nat, j: nat, x: nat, y: nat)
    requires t.Valid() && root < |t.nodes| && Within(t, root, p) && i < j < |t.nodes[p].kids|
    requires Within(t, t.nodes[p].kids[i], x) && Within(t, t.nodes[p].kids[j], y)
    ensures Before(t.Preorder(root), x, y)
  {
    assert t.LinkedDown(p);
    var ks := t.nodes[p].kids;
    var pre, post := Stretch(t, root, p);
    PreorderAllSplit(t, p, ks, j);
    assert ks[i] == ks[..j][i] && ks[j] == ks[j..][0];
    PreorderAllMembers(t, p, ks[..j], x);
    PreorderAllMembers(t, p, ks[j..], y);
    BeforeAcross(t.PreorderAll(p, ks[..j]), t.PreorderAll(p, ks[j..]), x, y);
    BeforeInStretch([p], t.PreorderAll(p, ks), [], x, y);
    assert [p] + t.PreorderAll(p, ks) + [] == t.Preorder(p);
    BeforeInStretch(pre, t.Preorder(p), post, x, y);
  }
}
