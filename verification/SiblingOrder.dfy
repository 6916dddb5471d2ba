/**
 The order among the dependencies of one package, as it shows in every list: post-order and
 the list of descendants take them from first to last, the old pre-order lists later ones
 further back, and chains come in lexicographic order.
 */
module SiblingOrder {
  import opened Sequences
  import opened Graph
  import opened Preorder
  import opened Chains

  /** One of the direct dependencies from `i` up to `k`, or reachable from one. */
  ghost predicate Under<T(!new)>(g: Graph<T>, n: T, i: nat, k: nat, x: T)
    requires n in g && i <= k <= |g[n]|
  {
    exists j :: i <= j < k && (x == g[n][j] || x in Reach(g, g[n][j]))
  }

  lemma UnderNext<T(!new)>(g: Graph<T>, n: T, i: nat, k: nat, x: T)
    requires n in g && i <= k < |g[n]|
    ensures Under(g, n, i, k + 1, x) <==> Under(g, n, i, k, x) || x == g[n][k] || x in Reach(g, g[n][k])
  {
    if Under(g, n, i, k + 1, x) {
      var j :| i <= j < k + 1 && (x == g[n][j] || x in Reach(g, g[n][j]));
    }
  }

  // ---------------------------------------------------------------- post-order

  lemma {:induction false} PostOverMembers<T(!new)>(g: Graph<T>, n: T, k: nat, x: T)
    requires Closed(g) && n in g && AcyclicFrom(g, n) && k <= |g[n]|
    ensures x in PostOver(g, n, k) <==> Under(g, n, 0, k, x)
    decreases k
  {
    hide Reach, Under, DepsFirst;
    if k == 0 {
      assert !Under(g, n, 0, 0, x) by { NothingUnder(g, n, x); }
    } else {
      var d := g[n][k - 1];
      AcyclicEdge(g, n, d);
      PostOverMembers(g, n, k - 1, x);
      PostOrderIsTopological(g, d);
      assert x in PostOrder(g, d) <==> x in Elements(PostOrder(g, d));
      AppendNewElements(PostOver(g, n, k - 1), PostOrder(g, d) + [d]);
      UnderNext(g, n, 0, k - 1, x);
    }
  }

  lemma NothingUnder<T(!new)>(g: Graph<T>, n: T, x: T)
    requires n in g
    ensures !Under(g, n, 0, 0, x)
  {
  }

  lemma {:induction false} PostOverGrows<T(!new)>(g: Graph<T>, n: T, k: nat, k': nat)
    requires Closed(g) && n in g && AcyclicFrom(g, n) && k <= k' <= |g[n]|
    ensures PostOver(g, n, k) <= PostOver(g, n, k')
    decreases k'
  {
    if k < k' {
      var d := g[n][k' - 1];
      AcyclicEdge(g, n, d);
      PostOverGrows(g, n, k, k' - 1);
      AppendNewElements(PostOver(g, n, k' - 1), PostOrder(g, d) + [d]);
    }
  }

  /** The list begins with what the first `k` direct dependencies are or reach, for every `k`. */
  lemma PostOrderSiblings<T(!new)>(g: Graph<T>, n: T, k: nat) returns (m: nat)
    requires Closed(g) && n in g && AcyclicFrom(g, n) && k <= |g[n]|
    ensures m <= |PostOrder(g, n)|
    ensures forall x :: x in PostOrder(g, n)[..m] <==> exists j :: 0 <= j < k && (x == g[n][j] || x in Reach(g, g[n][j]))
  {
    hide Reach;
    m := |PostOver(g, n, k)|;
    PostOverGrows(g, n, k, |g[n]|);
    assert PostOrder(g, n) == PostOver(g, n, |g[n]|);
    assert PostOrder(g, n)[..m] == PostOver(g, n, k);
    forall x ensures x in PostOver(g, n, k) <==> Under(g, n, 0, k, x) {
      PostOverMembers(g, n, k, x);
    }
  }

  // ---------------------------------------------------------------- the old pre-order

  lemma {:induction false} WithoutAllMembers<T>(s: seq<T>, xs: seq<T>, y: T)
    ensures y in WithoutAll(s, xs) <==> y in s && y !in xs
    decreases |xs|
  {
    if xs != [] {
      var front, last := xs[..|xs| - 1], xs[|xs| - 1];
      WithoutAllMembers(s, front, y);
      WithoutElements(WithoutAll(s, front), last);
      assert xs == front + [last];
    }
  }

  lemma {:induction false} WithoutAllConcat<T>(a: seq<T>, b: seq<T>, xs: seq<T>)
    ensures WithoutAll(a + b, xs) == WithoutAll(a, xs) + WithoutAll(b, xs)
    decreases |xs|
  {
    if xs != [] {
      WithoutAllConcat(a, b, xs[..|xs| - 1]);
      WithoutConcat(WithoutAll(a, xs[..|xs| - 1]), WithoutAll(b, xs[..|xs| - 1]), xs[|xs| - 1]);
    }
  }

  /** One more dependency moves what it reaches to the end. */
  lemma LastsMoved<T>(s: seq<T>, a: seq<T>, b: seq<T>, d: T, xs: seq<T>) returns (a': seq<T>, b': seq<T>)
    requires Lasts(s) == a + b
    ensures Lasts(BumpAll(s + [d], xs)) == a' + b'
    ensures forall y :: y in b' <==> y in b || y == d || y in xs
  {
    hide Lasts, WithoutAll, BumpAll, NoDup;
    var moved := [d] + xs;
    LastsOfBumpAll(s + [d], xs);
    assert s + [d] + xs == s + moved;
    LastsOfConcat(s, moved);
    WithoutAllConcat(a, b, moved);
    LastsElements(moved);
    a', b' := WithoutAll(a, moved), WithoutAll(b, moved) + Lasts(moved);
    forall y ensures y in b' <==> y in b || y == d || y in xs {
      WithoutAllMembers(b, moved, y);
    }
    assert WithoutAll(a, moved) + WithoutAll(b, moved) + Lasts(moved) == a' + b';
  }

  /** The last occurrences so far: first what no dependency from `i` on has, then what they have. */
  lemma {:induction false} PreOverSplits<T(!new)>(g: Graph<T>, n: T, i: nat, k: nat) returns (a: seq<T>, b: seq<T>)
    requires Closed(g) && n in g && AcyclicFrom(g, n) && i <= k <= |g[n]|
    ensures Lasts(PreOver(g, n, k)) == a + b && forall y :: y in b <==> Under(g, n, i, k, y)
    decreases k
  {
    hide Reach, Lasts, BumpAll, Under;
    if k == i {
      a, b := Lasts(PreOver(g, n, k)), [];
      forall y ensures !Under(g, n, i, k, y) {
        NothingBetween(g, n, i, y);
      }
    } else {
      var d := g[n][k - 1];
      AcyclicEdge(g, n, d);
      var a0, b0 := PreOverSplits(g, n, i, k - 1);
      PreOrderLasts(g, d);
      a, b := LastsMoved(PreOver(g, n, k - 1), a0, b0, d, PreOrder(g, d));
      forall y ensures y in b <==> Under(g, n, i, k, y) {
        assert y in PreOrder(g, d) <==> y in Elements(PreOrder(g, d));
        UnderNext(g, n, i, k - 1, y);
      }
    }
  }

  lemma NothingBetween<T(!new)>(g: Graph<T>, n: T, i: nat, x: T)
    requires n in g && i <= |g[n]|
    ensures !Under(g, n, i, i, x)
  {
  }

  /** What only earlier dependencies have, comes before what a later one has, by last occurrences. */
  lemma PreOrderSiblings<T(!new)>(g: Graph<T>, n: T, i: nat, x: T, y: T)
    requires Closed(g) && n in g && AcyclicFrom(g, n) && i < |g[n]|
    requires y == g[n][i] || y in Reach(g, g[n][i])
    requires x in PreOrder(g, n) && forall j :: i <= j < |g[n]| ==> x != g[n][j] && x !in Reach(g, g[n][j])
    ensures y in PreOrder(g, n) && LastIndex(PreOrder(g, n), x) < LastIndex(PreOrder(g, n), y)
  {
    var s := PreOrder(g, n);
    assert s == PreOver(g, n, |g[n]|);
    var a, b := PreOverSplits(g, n, i, |g[n]|);
    assert Under(g, n, i, |g[n]|, y) && !Under(g, n, i, |g[n]|, x);
    hide Reach, Lasts, Under, PreOrder;
    LastsElements(s);
    assert x in a + b && y in b;
    var p :| 0 <= p < |a| && a[p] == x;
    var q :| 0 <= q < |b| && b[q] == y;
    assert Lasts(s)[p] == x && Lasts(s)[|a| + q] == y;
    LastsFollowPositions(s, p, |a| + q);
  }

  // ---------------------------------------------------------------- chains

  /** The order of two chains: by the dependency taken where they part. */
  ghost predicate Lexicographic<T>(g: Graph<T>, p: seq<T>, q: seq<T>)
    decreases |p|
  {
    && |p| >= 2 && |q| >= 2 && p[0] == q[0] && p[0] in g
    && exists i, j :: 0 <= i <= j < |g[p[0]]| && p[1] == g[p[0]][i] && q[1] == g[p[0]][j]
         && (i < j || Lexicographic(g, p[1..], q[1..]))
  }

  /** A chain by way of dependency `i`. */
  lemma {:induction false} PathsOverVia<T(!new)>(g: Graph<T>, a: T, b: T, k: nat, p: seq<T>) returns (i: nat)
    requires Closed(g) && a in g && AcyclicFrom(g, a) && k <= |g[a]| && p in PathsOver(g, a, b, k)
    ensures i < k && |p| >= 2 && p[0] == a && p[1] == g[a][i]
  {
    hide Reach;
    PathsOverAre(g, a, b, k);
    i :| 0 <= i < k && g[a][..k][i] == p[1];
  }

  lemma {:induction false} PathsOverInOrder<T(!new)>(g: Graph<T>, a: T, b: T, k: nat, x: nat, y: nat)
    requires Closed(g) && a in g && AcyclicFrom(g, a) && k <= |g[a]|
    requires x < y < |PathsOver(g, a, b, k)|
    ensures Lexicographic(g, PathsOver(g, a, b, k)[x], PathsOver(g, a, b, k)[y])
    decreases Reach(g, a), k
  {
    hide Reach, AcyclicFrom, Walk, PathsOver, Paths, PushFront, Lexicographic;
    assert k > 0 by { NoPaths(g, a, b); }
    var d, front := g[a][k - 1], PathsOver(g, a, b, k - 1);
    AcyclicEdge(g, a, d);
    var last := if d == b then [[a, b]] else PushFront(a, Paths(g, d, b));
    PathsOverNext(g, a, b, k - 1);
    if y < |front| {
      PathsOverInOrder(g, a, b, k - 1, x, y);
    } else {
      var y' := y - |front|;
      ViaLast(g, a, b, d, last, y');
      if x < |front| {
        assert front[x] in front;
        var i := PathsOverVia(g, a, b, k - 1, front[x]);
        Earlier(g, front[x], last[y'], i, k - 1);
      } else {
        var x' := x - |front|;
        ViaLast(g, a, b, d, last, x');
        PathsAll(g, d, b);
        PushFrontAt(a, Paths(g, d, b));
        PathsOverInOrder(g, d, b, |g[d]|, x', y');
        assert last[x'][1..] == Paths(g, d, b)[x'] && last[y'][1..] == Paths(g, d, b)[y'];
        Within(g, last[x'], last[y'], k - 1);
      }
    }
  }

  lemma NoPaths<T(!new)>(g: Graph<T>, a: T, b: T)
    requires Closed(g) && a in g && AcyclicFrom(g, a)
    ensures PathsOver(g, a, b, 0) == []
  {
  }

  lemma PathsAll<T(!new)>(g: Graph<T>, d: T, b: T)
    requires Closed(g) && d in g && AcyclicFrom(g, d)
    ensures Paths(g, d, b) == PathsOver(g, d, b, |g[d]|)
  {
  }

  lemma ViaLast<T(!new)>(g: Graph<T>, a: T, b: T, d: T, last: seq<seq<T>>, y: nat)
    requires Closed(g) && d in g && AcyclicFrom(g, d) && y < |last|
    requires last == if d == b then [[a, b]] else PushFront(a, Paths(g, d, b))
    ensures |last[y]| >= 2 && last[y][0] == a && last[y][1] == d
  {
    if d != b {
      PushFrontAt(a, Paths(g, d, b));
      PathsAreTheChains(g, d, b);
      assert Paths(g, d, b)[y] in Paths(g, d, b);
    }
  }

  lemma Earlier<T>(g: Graph<T>, p: seq<T>, q: seq<T>, i: nat, j: nat)
    requires |p| >= 2 && |q| >= 2 && p[0] == q[0] && p[0] in g && i < j < |g[p[0]]| && p[1] == g[p[0]][i] && q[1] == g[p[0]][j]
    ensures Lexicographic(g, p, q)
  {
  }

  lemma Within<T>(g: Graph<T>, p: seq<T>, q: seq<T>, i: nat)
    requires |p| >= 2 && |q| >= 2 && p[0] == q[0] && p[0] in g && i < |g[p[0]]| && p[1] == g[p[0]][i] == q[1]
    requires Lexicographic(g, p[1..], q[1..])
    ensures Lexicographic(g, p, q)
  {
  }

  /** Chains are listed in lexicographic order. */
  lemma PathsInOrder<T(!new)>(g: Graph<T>, a: T, b: T, x: nat, y: nat)
    requires Closed(g) && a in g && AcyclicFrom(g, a) && x < y < |Paths(g, a, b)|
    ensures Lexicographic(g, Paths(g, a, b)[x], Paths(g, a, b)[y])
  {
    PathsAll(g, a, b);
    PathsOverInOrder(g, a, b, |g[a]|, x, y);
  }

  // ---------------------------------------------------------------- descendants

  /** Depends on one of the first `k` packages that depend on `n` directly, or is one. */
  ghost predicate Above<T(!new)>(g: Graph<T>, pkgs: seq<T>, n: T, k: nat, x: T)
    requires (forall p <- pkgs :: p in g) && k <= |pkgs|
  {
    exists i :: 0 <= i < k && n in g[pkgs[i]] && (x == pkgs[i] || (x in g && pkgs[i] in Reach(g, x)))
  }

  lemma {:induction false} DescendantsOverMembers<T(!new)>(g: Graph<T>, pkgs: seq<T>, n: T, k: nat, x: T)
    requires Closed(g) && Elements(pkgs) == g.Keys && (forall p <- pkgs :: p in g) && n in g && k <= |pkgs|
    requires AcyclicFrom(Reverse(g, pkgs), n)
    ensures x in DescendantsOver(g, pkgs, n, k) <==> Above(g, pkgs, n, k, x)
    decreases k
  {
    hide Reach, Reverse, AcyclicFrom, Descendants, Elements;
    if k > 0 {
      var p := pkgs[k - 1];
      DescendantsOverMembers(g, pkgs, n, k - 1, x);
      AboveNext(g, pkgs, n, k - 1, x);
      hide Above;
      if n in g[p] {
        ReverseEdges(g, pkgs);
        AcyclicEdge(Reverse(g, pkgs), n, p);
        DescendantsAreInverse(g, pkgs, p);
        assert DescendantsOver(g, pkgs, n, k) == DescendantsOver(g, pkgs, n, k - 1) + [p] + Descendants(g, pkgs, p);
      }
    }
  }

  lemma AboveNext<T(!new)>(g: Graph<T>, pkgs: seq<T>, n: T, k: nat, x: T)
    requires (forall p <- pkgs :: p in g) && k < |pkgs|
    ensures Above(g, pkgs, n, k + 1, x) <==>
      Above(g, pkgs, n, k, x) || (n in g[pkgs[k]] && (x == pkgs[k] || (x in g && pkgs[k] in Reach(g, x))))
  {
    hide Reach;
    if Above(g, pkgs, n, k + 1, x) {
      var i :| 0 <= i < k + 1 && n in g[pkgs[i]] && (x == pkgs[i] || (x in g && pkgs[i] in Reach(g, x)));
    }
  }

  lemma {:induction false} DescendantsOverGrows<T(!new)>(g: Graph<T>, pkgs: seq<T>, n: T, k: nat, k': nat)
    requires Closed(g) && Elements(pkgs) == g.Keys && (forall p <- pkgs :: p in g) && n in g && k <= k' <= |pkgs|
    requires AcyclicFrom(Reverse(g, pkgs), n)
    ensures DescendantsOver(g, pkgs, n, k) <= DescendantsOver(g, pkgs, n, k')
    decreases k'
  {
    hide Reach, Reverse, AcyclicFrom, Descendants, Elements;
    if k < k' {
      DescendantsOverGrows(g, pkgs, n, k, k' - 1);
    }
  }

  /** The list begins with what the first `k` packages in crawl order contribute, for every `k`. */
  lemma DescendantsSiblings<T(!new)>(g: Graph<T>, pkgs: seq<T>, n: T, k: nat) returns (m: nat)
    requires Closed(g) && Elements(pkgs) == g.Keys && (forall p <- pkgs :: p in g) && n in g && k <= |pkgs|
    requires AcyclicFrom(Reverse(g, pkgs), n)
    ensures m <= |Descendants(g, pkgs, n)|
    ensures forall x :: x in Descendants(g, pkgs, n)[..m] <==> Above(g, pkgs, n, k, x)
  {
    var part, all := DescendantsOver(g, pkgs, n, k), DescendantsOver(g, pkgs, n, |pkgs|);
    assert Descendants(g, pkgs, n) == AppendNew([], all);
    hide Reach, Reverse, AcyclicFrom, Descendants, Elements, Above, DescendantsOver;
    DescendantsOverGrows(g, pkgs, n, k, |pkgs|);
    AppendNewConcat([], part, all[|part|..]);
    assert all == part + all[|part|..];
    AppendNewElements([], part);
    AppendNewElements(AppendNew([], part), all[|part|..]);
    m := |AppendNew([], part)|;
    assert Descendants(g, pkgs, n)[..m] == AppendNew([], part);
    forall x ensures x in part <==> Above(g, pkgs, n, k, x) {
      DescendantsOverMembers(g, pkgs, n, k, x);
    }
  }

  /** Who is listed depends on `n` directly or on one listed before. */
  ghost predicate DependsOnEarlier<T>(g: Graph<T>, n: T, s: seq<T>)
  {
    forall j :: 0 <= j < |s| ==> s[j] in g && (n in g[s[j]] || exists i :: 0 <= i < j && s[i] in g[s[j]])
  }

  lemma {:induction false} DescendantsDependOnEarlier<T(!new)>(g: Graph<T>, pkgs: seq<T>, n: T)
    requires Closed(g) && Elements(pkgs) == g.Keys && (forall p <- pkgs :: p in g) && n in g
    requires AcyclicFrom(Reverse(g, pkgs), n)
    ensures DependsOnEarlier(g, n, Descendants(g, pkgs, n))
    decreases Reach(Reverse(g, pkgs), n), |pkgs| + 1
  {
    var all := DescendantsOver(g, pkgs, n, |pkgs|);
    assert Descendants(g, pkgs, n) == AppendNew([], all);
    OverDependsOnEarlier(g, pkgs, n, |pkgs|);
    hide Reach, Reverse, AcyclicFrom, Descendants, Elements, DependsOnEarlier, AppendNew;
    NewDependOnEarlier(g, n, all);
  }

  lemma {:induction false} OverDependsOnEarlier<T(!new)>(g: Graph<T>, pkgs: seq<T>, n: T, k: nat)
    requires Closed(g) && Elements(pkgs) == g.Keys && (forall p <- pkgs :: p in g) && n in g && k <= |pkgs|
    requires AcyclicFrom(Reverse(g, pkgs), n)
    ensures DependsOnEarlier(g, n, DescendantsOver(g, pkgs, n, k))
    decreases Reach(Reverse(g, pkgs), n), k
  {
    hide Reach, Reverse, AcyclicFrom, Descendants, Elements, DependsOnEarlier;
    if k == 0 {
      NobodyEarlier(g, n);
    } else {
      var p := pkgs[k - 1];
      OverDependsOnEarlier(g, pkgs, n, k - 1);
      if n in g[p] {
        ReverseEdges(g, pkgs);
        AcyclicEdge(Reverse(g, pkgs), n, p);
        DescendantsDependOnEarlier(g, pkgs, p);
        EarlierConcat(g, n, p, DescendantsOver(g, pkgs, n, k - 1), Descendants(g, pkgs, p));
      }
    }
  }

  lemma NobodyEarlier<T>(g: Graph<T>, n: T)
    ensures DependsOnEarlier(g, n, [])
  {
  }

  lemma EarlierConcat<T>(g: Graph<T>, n: T, p: T, s: seq<T>, t: seq<T>)
    requires DependsOnEarlier(g, n, s) && p in g && n in g[p] && DependsOnEarlier(g, p, t)
    ensures DependsOnEarlier(g, n, s + [p] + t)
  {
    var r := s + [p] + t;
    forall j | 0 <= j < |r| ensures r[j] in g && (n in g[r[j]] || exists i :: 0 <= i < j && r[i] in g[r[j]]) {
      if j < |s| {
        if n !in g[s[j]] {
          var i :| 0 <= i < j && s[i] in g[s[j]];
          assert r[i] == s[i];
        }
      } else if j > |s| {
        var j' := j - |s| - 1;
        assert r[j] == t[j'] && r[|s|] == p;
        if p !in g[t[j']] {
          var i :| 0 <= i < j' && t[i] in g[t[j']];
          assert r[|s| + 1 + i] == t[i];
        }
      }
    }
  }

  lemma {:induction false} NewDependOnEarlier<T>(g: Graph<T>, n: T, s: seq<T>)
    requires DependsOnEarlier(g, n, s)
    ensures DependsOnEarlier(g, n, AppendNew([], s))
    decreases |s|
  {
    if s != [] {
      var front, last := s[..|s| - 1], s[|s| - 1];
      assert DependsOnEarlier(g, n, front) by {
        assert forall j :: 0 <= j < |front| ==> front[j] == s[j];
      }
      NewDependOnEarlier(g, n, front);
      AppendNewElements([], front);
      var r := AppendNew([], front);
      if last !in r {
        assert last == s[|front|];
        if n !in g[last] {
          var i :| 0 <= i < |front| && s[i] in g[last];
          assert s[i] == front[i] && front[i] in front;
        }
        OneMoreEarlier(g, n, r, last);
      }
    }
  }

  lemma OneMoreEarlier<T>(g: Graph<T>, n: T, r: seq<T>, last: T)
    requires DependsOnEarlier(g, n, r) && last in g && (n in g[last] || exists x <- r :: x in g[last])
    ensures DependsOnEarlier(g, n, r + [last])
  {
    var t := r + [last];
    forall j | 0 <= j < |t| ensures t[j] in g && (n in g[t[j]] || exists i :: 0 <= i < j && t[i] in g[t[j]]) {
      if j < |r| {
        if n !in g[r[j]] {
          var i :| 0 <= i < j && r[i] in g[r[j]];
          assert t[i] == r[i];
        }
      } else if n !in g[last] {
        var x :| x in r && x in g[last];
        var i :| 0 <= i < |r| && r[i] == x;
        assert t[i] == x;
      }
    }
  }
}
