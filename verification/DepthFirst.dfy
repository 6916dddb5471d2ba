/**
 Depth-first pre-order on any graph, cyclic ones included: what it means for a list to be in
 that order, and what follows for parents, for the block behind each node, and for the list
 as a whole.
 */
module DepthFirst {
  import opened Graph

  /** `d` is the first link that has not been seen. */
  ghost predicate FirstUnseen<T>(links: seq<T>, seen: set<T>, d: T)
  {
    d !in seen && exists k :: 0 <= k < |links| && links[k] == d && forall l :: 0 <= l < k ==> links[l] in seen
  }

  ghost predicate AllSeen<T>(links: seq<T>, seen: set<T>)
  {
    forall d <- links :: d in seen
  }

  /** The node searched from, and behind it the listed ones. */
  function At<T>(s: T, list: seq<T>, i: nat): T
    requires i <= |list|
  {
    if i == 0 then s else list[i - 1]
  }

  /** Entry `j` is the first unseen link of node `i`, and the nodes listed after node `i` have none. */
  ghost predicate PickedAt<T>(g: Graph<T>, s: T, seen: set<T>, list: seq<T>, j: nat, i: nat)
    requires i <= j < |list|
  {
    var before := seen + Elements(list[..j]);
    && At(s, list, i) in g && FirstUnseen(g[At(s, list, i)], before, list[j])
    && forall l :: i < l <= j ==> Exhausted(g, At(s, list, l), before)
  }

  ghost predicate Exhausted<T>(g: Graph<T>, x: T, seen: set<T>)
  {
    x in g && AllSeen(g[x], seen)
  }

  ghost predicate Picked<T>(g: Graph<T>, s: T, seen: set<T>, list: seq<T>, j: nat)
    requires j < |list|
  {
    exists i :: 0 <= i <= j && PickedAt(g, s, seen, list, j, i)
  }

  /** Every entry is the first unseen link of the latest node that has an unseen link. */
  ghost predicate InDepthFirst<T>(g: Graph<T>, s: T, seen: set<T>, list: seq<T>)
  {
    forall j :: 0 <= j < |list| ==> Picked(g, s, seen, list, j)
  }

  /** No node has an unseen link any more. */
  ghost predicate Finished<T>(g: Graph<T>, s: T, seen: set<T>, list: seq<T>)
  {
    forall i :: 0 <= i <= |list| ==> Exhausted(g, At(s, list, i), seen + Elements(list))
  }

  /** Links in their own order, each where it first occurs. */
  ghost predicate InLinkOrder<T>(links: seq<T>, seen: set<T>, list: seq<T>)
  {
    forall j :: 0 <= j < |list| ==> FirstUnseen(links, seen + Elements(list[..j]), list[j])
  }

  // ---------------------------------------------------------------- building such a list

  lemma InLinkOrderGrows<T>(links: seq<T>, k: nat, seen: set<T>, list: seq<T>)
    requires k < |links| && links[k] !in seen + Elements(list) && InLinkOrder(links, seen, list)
    requires forall l :: 0 <= l < k ==> links[l] in seen + Elements(list)
    ensures InLinkOrder(links, seen, list + [links[k]])
  {
    var all := list + [links[k]];
    assert forall j :: 0 <= j <= |list| ==> all[..j] == list[..j];
    assert list[..|list|] == list;
  }

  /** After the entries of finished searches, the next link of `s` and what the search from it lists. */
  lemma InDepthFirstGrows<T>(g: Graph<T>, s: T, k: nat, seen: set<T>, list: seq<T>, d: T, sub: seq<T>)
    requires s in g && k < |g[s]| && g[s][k] == d && d !in seen + Elements(list)
    requires InDepthFirst(g, s, seen, list) && forall l :: 0 <= l < k ==> g[s][l] in seen + Elements(list)
    requires forall x <- list :: Exhausted(g, x, seen + Elements(list))
    requires InDepthFirst(g, d, seen + Elements(list) + {d}, sub)
    ensures InDepthFirst(g, s, seen, list + [d] + sub)
  {
    var n, all := |list|, list + [d] + sub;
    forall j | 0 <= j < |all| ensures Picked(g, s, seen, all, j) {
      if j < n {
        assert all[..j] == list[..j];
        assert Picked(g, s, seen, list, j);
        var i :| 0 <= i <= j && PickedAt(g, s, seen, list, j, i);
        assert forall l :: 0 <= l <= j ==> At(s, all, l) == At(s, list, l);
        assert PickedAt(g, s, seen, all, j, i);
      } else if j == n {
        assert all[..j] == list;
        assert PickedAt(g, s, seen, all, j, 0);
      } else {
        PickedInside(g, s, seen, list, d, sub, j - n - 1);
      }
    }
  }

  lemma PickedInside<T>(g: Graph<T>, s: T, seen: set<T>, list: seq<T>, d: T, sub: seq<T>, j: nat)
    requires j < |sub| && InDepthFirst(g, d, seen + Elements(list) + {d}, sub)
    ensures Picked(g, s, seen, list + [d] + sub, |list| + 1 + j)
  {
    var n, all := |list| + 1, list + [d] + sub;
    assert Picked(g, d, seen + Elements(list) + {d}, sub, j);
    var i :| 0 <= i <= j && PickedAt(g, d, seen + Elements(list) + {d}, sub, j, i);
    assert all[..n + j] == list + [d] + sub[..j];
    SameSeen(seen, list, d, sub[..j]);
    assert forall l :: 0 <= l <= j ==> At(s, all, n + l) == At(d, sub, l);
    forall l | n + i < l <= n + j ensures Exhausted(g, At(s, all, l), seen + Elements(all[..n + j])) {
      assert At(s, all, l) == At(d, sub, l - n);
    }
    assert PickedAt(g, s, seen, all, n + j, n + i);
  }

  lemma SameSeen<T>(seen: set<T>, list: seq<T>, d: T, rest: seq<T>)
    ensures seen + Elements(list) + {d} + Elements(rest) == seen + Elements(list + [d] + rest)
  {
  }

  // ---------------------------------------------------------------- what the order means

  /** A node comes after one that names it, unless the start names it. */
  ghost predicate ParentsFirst<T>(g: Graph<T>, s: T, list: seq<T>)
    requires s in g && forall x <- list :: x in g
  {
    forall j :: 0 <= j < |list| ==> list[j] in g[s] || exists i :: 0 <= i < j && list[j] in g[list[i]]
  }

  lemma DepthFirstParents<T>(g: Graph<T>, s: T, list: seq<T>)
    requires s in g && (forall x <- list :: x in g) && InDepthFirst(g, s, {}, list)
    ensures ParentsFirst(g, s, list)
  {
    forall j | 0 <= j < |list| ensures list[j] in g[s] || exists i :: 0 <= i < j && list[j] in g[list[i]] {
      assert Picked(g, s, {}, list, j);
      var i :| 0 <= i <= j && PickedAt(g, s, {}, list, j, i);
      assert i > 0 ==> list[j] in g[list[i - 1]];
    }
  }

  ghost predicate ReachesAround<T(!new)>(g: Graph<T>, a: T, b: T, avoid: set<T>)
  {
    exists p :: Chain(g, p, a, b) && forall i :: 1 <= i < |p| ==> p[i] !in avoid
  }

  /** What a chain leads to from `a` without touching `avoid` again. */
  ghost function ReachAround<T(!new)>(g: Graph<T>, a: T, avoid: set<T>): set<T>
  {
    set b | b in g && ReachesAround(g, a, b, avoid)
  }

  /** The block behind entry `j`: what it reaches around everything listed up to it, in one piece. */
  ghost predicate BlockBehind<T(!new)>(g: Graph<T>, list: seq<T>, j: nat)
    requires j < |list|
  {
    exists k :: j < k <= |list| && BlockUpTo(g, list, j, k)
  }

  ghost predicate BlockUpTo<T(!new)>(g: Graph<T>, list: seq<T>, j: nat, k: nat)
    requires j < k <= |list|
  {
    Elements(list[j + 1..k]) == ReachAround(g, list[j], Elements(list[..j + 1]))
  }

  lemma {:induction false} DepthFirstBlocks<T(!new)>(g: Graph<T>, s: T, list: seq<T>, j: nat)
    requires Closed(g) && InDepthFirst(g, s, {}, list) && Finished(g, s, {}, list) && j < |list|
    ensures BlockBehind(g, list, j)
  {
    var x, avoid := list[j], Elements(list[..j + 1]);
    var k := j + 1;
    assert At(s, list, j + 1) == x;
    while k < |list| && exists i :: j < i <= k && PickedAt(g, s, {}, list, k, i)
      invariant j < k <= |list| && Elements(list[j + 1..k]) <= ReachAround(g, x, avoid)
    {
      var i :| j < i <= k && PickedAt(g, s, {}, list, k, i);
      assert i > j + 1 ==> list[i - 1] in list[j + 1..k];
      StepAround(g, x, At(s, list, i), list[k], avoid);
      assert list[j + 1..k + 1] == list[j + 1..k] + [list[k]];
      k := k + 1;
    }
    BlockIsExhausted(g, s, list, j, k);
    forall b | b in ReachAround(g, x, avoid) ensures b in Elements(list[j + 1..k]) {
      var p :| Chain(g, p, x, b) && forall i :: 1 <= i < |p| ==> p[i] !in avoid;
      ChainInBlock(g, s, list, j, k, p, |p| - 1);
    }
    assert BlockUpTo(g, list, j, k);
  }

  /** One more edge of a chain around `avoid`. */
  lemma StepAround<T(!new)>(g: Graph<T>, a: T, b: T, c: T, avoid: set<T>)
    requires Closed(g) && b in g && c in g[b] && c !in avoid && (b == a || b in ReachAround(g, a, avoid))
    ensures c in ReachAround(g, a, avoid)
  {
    if b in ReachAround(g, a, avoid) {
      var p :| Chain(g, p, a, b) && forall i :: 1 <= i < |p| ==> p[i] !in avoid;
      assert Chain(g, p + [c], a, c);
    } else {
      assert Chain(g, [a, c], a, c);
    }
  }

  /** Where the block ends, no node of it has an unseen link. */
  lemma BlockIsExhausted<T>(g: Graph<T>, s: T, list: seq<T>, j: nat, k: nat)
    requires InDepthFirst(g, s, {}, list) && Finished(g, s, {}, list) && j < k <= |list|
    requires k < |list| ==> !exists i :: j < i <= k && PickedAt(g, s, {}, list, k, i)
    ensures forall l :: j < l <= k ==> Exhausted(g, At(s, list, l), Elements(list[..k]))
  {
    assert {} + Elements(list[..k]) == Elements(list[..k]);
    if k < |list| {
      assert Picked(g, s, {}, list, k);
      var i :| 0 <= i <= k && PickedAt(g, s, {}, list, k, i);
      assert i <= j;
    } else {
      assert list[..k] == list;
    }
  }

  lemma {:induction false} ChainInBlock<T(!new)>(g: Graph<T>, s: T, list: seq<T>, j: nat, k: nat, p: seq<T>, m: nat)
    requires j < k <= |list| && forall l :: j < l <= k ==> Exhausted(g, At(s, list, l), Elements(list[..k]))
    requires Walk(g, p) && p[0] == list[j] && 1 <= m < |p| && forall i :: 1 <= i < |p| ==> p[i] !in Elements(list[..j + 1])
    ensures p[m] in list[j + 1..k]
  {
    var l := j + 1;
    if m > 1 {
      ChainInBlock(g, s, list, j, k, p, m - 1);
      var t :| 0 <= t < k - j - 1 && list[j + 1..k][t] == p[m - 1];
      l := j + 2 + t;
    }
    assert At(s, list, l) == p[m - 1];
    assert p[m] in list[..k];
    assert list[..k] == list[..j + 1] + list[j + 1..k];
    var before := list[..j + 1];
    assert p[m] in before <==> p[m] in Elements(before);
  }

  // ---------------------------------------------------------------- there is one such list

  lemma PickedOnce<T>(g: Graph<T>, s: T, a: seq<T>, b: seq<T>, j: nat)
    requires j < |a| && j < |b| && a[..j] == b[..j] && InDepthFirst(g, s, {}, a) && InDepthFirst(g, s, {}, b)
    ensures a[j] == b[j]
  {
    assert Picked(g, s, {}, a, j) && Picked(g, s, {}, b, j);
    var i :| 0 <= i <= j && PickedAt(g, s, {}, a, j, i);
    var i' :| 0 <= i' <= j && PickedAt(g, s, {}, b, j, i');
    assert forall l :: 0 <= l <= j ==> At(s, a, l) == At(s, b, l) by {
      assert forall l :: 0 <= l < j ==> a[l] == a[..j][l] && b[l] == b[..j][l];
    }
  }

  lemma {:induction false} CommonPrefix<T>(g: Graph<T>, s: T, a: seq<T>, b: seq<T>, j: nat)
    requires j <= |a| && j <= |b| && InDepthFirst(g, s, {}, a) && InDepthFirst(g, s, {}, b)
    ensures a[..j] == b[..j]
  {
    if j > 0 {
      CommonPrefix(g, s, a, b, j - 1);
      PickedOnce(g, s, a, b, j - 1);
      assert a[..j] == a[..j - 1] + [a[j - 1]] && b[..j] == b[..j - 1] + [b[j - 1]];
    }
  }

  lemma NothingBeyond<T>(g: Graph<T>, s: T, a: seq<T>, b: seq<T>)
    requires a <= b && Finished(g, s, {}, a) && InDepthFirst(g, s, {}, b)
    ensures a == b
  {
    if |a| < |b| {
      assert b[..|a|] == a && Picked(g, s, {}, b, |a|);
      forall i | 0 <= i <= |a| ensures !PickedAt(g, s, {}, b, |a|, i) {
        assert Exhausted(g, At(s, a, i), {} + Elements(a));
      }
      assert false;
    }
  }

  /** The order leaves no choice: a graph and a start have one finished list. */
  lemma DepthFirstIsUnique<T>(g: Graph<T>, s: T, a: seq<T>, b: seq<T>)
    requires InDepthFirst(g, s, {}, a) && Finished(g, s, {}, a)
    requires InDepthFirst(g, s, {}, b) && Finished(g, s, {}, b)
    ensures a == b
  {
    var j := if |a| < |b| then |a| else |b|;
    CommonPrefix(g, s, a, b, j);
    assert a[..|a|] == a && b[..|b|] == b;
    if |a| <= |b| {
      NothingBeyond(g, s, a, b);
    } else {
      NothingBeyond(g, s, b, a);
    }
  }
}
