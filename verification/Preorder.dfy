/**
 The quasi-preorder of the old dependency engine: a dependency is pushed to the back, and
 then everything it reaches is bumped behind it. The list can hold repetitions; what it
 guarantees, to a linker, is the order of last occurrences.
 */
module Preorder {
  import opened Sequences
  import opened Graph

  /** Erases the first occurrence. */
  function RemoveFirst<T(==)>(s: seq<T>, x: T): seq<T>
  {
    if s == [] then [] else if s[0] == x then s[1..] else [s[0]] + RemoveFirst(s[1..], x)
  }

  /** `erase(prior_loc)` and `push_back`. */
  function Bump<T(==)>(s: seq<T>, x: T): seq<T>
  {
    (if x in s then RemoveFirst(s, x) else s) + [x]
  }

  function BumpAll<T(==)>(s: seq<T>, xs: seq<T>): seq<T>
  {
    if xs == [] then s else Bump(BumpAll(s, xs[..|xs| - 1]), xs[|xs| - 1])
  }

  ghost function PreOrder<T(!new)>(g: Graph<T>, n: T): seq<T>
    requires Closed(g) && n in g && AcyclicFrom(g, n)
    decreases Reach(g, n), |g[n]| + 1
  {
    PreOver(g, n, |g[n]|)
  }

  ghost function PreOver<T(!new)>(g: Graph<T>, n: T, k: nat): seq<T>
    requires Closed(g) && n in g && AcyclicFrom(g, n) && k <= |g[n]|
    decreases Reach(g, n), k
  {
    if k == 0 then []
    else
      var d := g[n][k - 1];
      AcyclicEdge(g, n, d);
      BumpAll(PreOver(g, n, k - 1) + [d], PreOrder(g, d))
  }

  // ---------------------------------------------------------------- last occurrences

  function Without<T(==)>(s: seq<T>, x: T): seq<T>
  {
    if s == [] then []
    else Without(s[..|s| - 1], x) + (if s[|s| - 1] == x then [] else [s[|s| - 1]])
  }

  /** The elements in the order of their last occurrences. */
  function Lasts<T(==)>(s: seq<T>): seq<T>
  {
    if s == [] then [] else Without(Lasts(s[..|s| - 1]), s[|s| - 1]) + [s[|s| - 1]]
  }

  /** The position of the last occurrence. */
  function LastIndex<T(==)>(s: seq<T>, x: T): (i: nat)
    requires x in s
    ensures i < |s| && s[i] == x && forall j :: i < j < |s| ==> s[j] != x
  {
    if s[|s| - 1] == x then |s| - 1 else LastIndex(s[..|s| - 1], x)
  }

  lemma LastsSnoc<T>(s: seq<T>, x: T)
    ensures Lasts(s + [x]) == Without(Lasts(s), x) + [x]
  {
    assert (s + [x])[..|s + [x]| - 1] == s;
  }

  lemma WithoutSnoc<T>(s: seq<T>, x: T, y: T)
    ensures Without(s + [y], x) == if y == x then Without(s, x) else Without(s, x) + [y]
  {
    assert (s + [y])[..|s + [y]| - 1] == s;
  }

  lemma NoDupSnoc<T>(s: seq<T>, x: T)
    ensures NoDup(s + [x]) <==> NoDup(s) && x !in s
  {
    var r := s + [x];
    if NoDup(r) {
      forall i, j | 0 <= i < j < |s| ensures s[i] != s[j] {
        assert r[i] != r[j];
      }
      forall i | 0 <= i < |s| ensures s[i] != x {
        assert r[i] != r[|s|];
      }
    }
  }

  lemma {:induction false} WithoutElements<T>(s: seq<T>, x: T)
    ensures forall y :: y in Without(s, x) <==> y in s && y != x
    ensures NoDup(s) ==> NoDup(Without(s, x))
  {
    if s != [] {
      var s', l := s[..|s| - 1], s[|s| - 1];
      assert s == s' + [l];
      WithoutElements(s', x);
      NoDupSnoc(s', l);
      NoDupSnoc(Without(s', x), l);
    }
  }

  lemma {:induction false} LastsElements<T>(s: seq<T>)
    ensures forall y :: y in Lasts(s) <==> y in s
    ensures NoDup(Lasts(s))
  {
    if s != [] {
      var s', l := s[..|s| - 1], s[|s| - 1];
      assert s == s' + [l];
      LastsElements(s');
      WithoutElements(Lasts(s'), l);
      NoDupSnoc(Without(Lasts(s'), l), l);
    }
  }

  lemma {:induction false} WithoutConcat<T>(s: seq<T>, t: seq<T>, x: T)
    ensures Without(s + t, x) == Without(s, x) + Without(t, x)
  {
    if t == [] {
      assert s + t == s;
    } else {
      WithoutConcat(s, t[..|t| - 1], x);
      assert (s + t)[..|s + t| - 1] == s + t[..|t| - 1];
    }
  }

  lemma {:induction false} WithoutCommutes<T>(s: seq<T>, x: T, y: T)
    ensures Without(Without(s, x), y) == Without(Without(s, y), x)
  {
    if s != [] {
      var s', l := s[..|s| - 1], s[|s| - 1];
      assert s == s' + [l];
      WithoutCommutes(s', x, y);
      WithoutSnoc(s', x, l);
      WithoutSnoc(s', y, l);
      WithoutSnoc(Without(s', x), y, l);
      WithoutSnoc(Without(s', y), x, l);
    }
  }

  lemma {:induction false} WithoutTwice<T>(s: seq<T>, x: T)
    ensures Without(Without(s, x), x) == Without(s, x)
  {
    if s != [] {
      var s', l := s[..|s| - 1], s[|s| - 1];
      WithoutTwice(s', x);
      WithoutSnoc(Without(s', x), x, l);
    }
  }

  lemma {:induction false} LastsWithout<T>(s: seq<T>, x: T)
    ensures Lasts(Without(s, x)) == Without(Lasts(s), x)
  {
    if s != [] {
      var s', l := s[..|s| - 1], s[|s| - 1];
      LastsWithout(s', x);
      LastsWithoutSnoc(s', x, l);
      assert s == s' + [l];
    }
  }

  lemma LastsWithoutSnoc<T>(s: seq<T>, x: T, l: T)
    requires Lasts(Without(s, x)) == Without(Lasts(s), x)
    ensures Lasts(Without(s + [l], x)) == Without(Lasts(s + [l]), x)
  {
    hide Without, Lasts;
    LastsSnoc(s, l);
    WithoutSnoc(s, x, l);
    WithoutSnoc(Without(Lasts(s), l), x, l);
    if l == x {
      WithoutTwice(Lasts(s), x);
    } else {
      LastsSnoc(Without(s, x), l);
      WithoutCommutes(Lasts(s), l, x);
    }
  }

  lemma {:induction false} WithoutRemoved<T>(s: seq<T>, x: T)
    ensures Without(RemoveFirst(s, x), x) == Without(s, x)
  {
    if s != [] {
      assert s == [s[0]] + s[1..];
      WithoutConcat([s[0]], s[1..], x);
      assert [s[0]][..0] == [];
      if s[0] != x {
        WithoutRemoved(s[1..], x);
        WithoutConcat([s[0]], RemoveFirst(s[1..], x), x);
      }
    }
  }

  /** For last occurrences, bumping is the same as pushing. */
  lemma LastsOfBump<T>(s: seq<T>, x: T)
    ensures Lasts(Bump(s, x)) == Lasts(s + [x])
  {
    LastsSnoc(s, x);
    if x in s {
      LastsSnoc(RemoveFirst(s, x), x);
      LastsWithout(RemoveFirst(s, x), x);
      LastsWithout(s, x);
      WithoutRemoved(s, x);
    }
  }

  lemma {:induction false} LastsOfBumpAll<T>(s: seq<T>, xs: seq<T>)
    ensures Lasts(BumpAll(s, xs)) == Lasts(s + xs)
  {
    hide Lasts, Without, Bump;
    if xs == [] {
      assert s + xs == s;
    } else {
      var xs', x := xs[..|xs| - 1], xs[|xs| - 1];
      LastsOfBumpAll(s, xs');
      LastsOfBump(BumpAll(s, xs'), x);
      LastsSnoc(BumpAll(s, xs'), x);
      LastsSnoc(s + xs', x);
      assert s + xs == s + xs' + [x];
    }
  }

  function WithoutAll<T(==)>(s: seq<T>, xs: seq<T>): seq<T>
  {
    if xs == [] then s else Without(WithoutAll(s, xs[..|xs| - 1]), xs[|xs| - 1])
  }

  /** Last occurrences in a concatenation. */
  lemma {:induction false} LastsOfConcat<T>(s: seq<T>, t: seq<T>)
    ensures Lasts(s + t) == WithoutAll(Lasts(s), t) + Lasts(t)
  {
    if t == [] {
      assert s + t == s;
    } else {
      var t', x := t[..|t| - 1], t[|t| - 1];
      LastsOfConcat(s, t');
      assert s + t == s + t' + [x] && t == t' + [x];
      LastsOfConcatSnoc(s, t', x, WithoutAll(Lasts(s), t'));
    }
  }

  lemma LastsOfConcatSnoc<T>(s: seq<T>, t: seq<T>, x: T, front: seq<T>)
    requires Lasts(s + t) == front + Lasts(t)
    ensures Lasts(s + t + [x]) == Without(front, x) + Lasts(t + [x])
  {
    hide Lasts, Without;
    LastsSnoc(s + t, x);
    LastsSnoc(t, x);
    WithoutConcat(front, Lasts(t), x);
    assert Without(front, x) + Without(Lasts(t), x) + [x] == Without(front, x) + (Without(Lasts(t), x) + [x]);
  }

  // ---------------------------------------------------------------- linker order

  /** Every node comes before all its dependencies. */
  ghost predicate DepsLast<T>(g: Graph<T>, s: seq<T>)
  {
    forall i :: 0 <= i < |s| ==> s[i] in g && forall d <- g[s[i]] :: d in s[i + 1..]
  }

  /** The same, when what is missing from `s` is in `rest`. */
  ghost predicate DepsLastOr<T>(g: Graph<T>, s: seq<T>, rest: set<T>)
  {
    forall i :: 0 <= i < |s| ==> s[i] in g && forall d <- g[s[i]] :: d in s[i + 1..] || d in rest
  }

  lemma OrderSnoc<T>(g: Graph<T>, s: seq<T>, l: T, rest: set<T>)
    ensures DepsLastOr(g, s + [l], rest) <==> l in g && (forall d <- g[l] :: d in rest) && DepsLastOr(g, s, rest + {l})
  {
    var r := s + [l];
    assert r[|s|] == l && r[|s| + 1..] == [];
    forall i | 0 <= i < |s| ensures r[i] == s[i] && r[i + 1..] == s[i + 1..] + [l] {
    }
  }

  lemma {:induction false} WithoutKeepsOrder<T>(g: Graph<T>, s: seq<T>, x: T, rest: set<T>)
    requires DepsLastOr(g, s, rest)
    ensures DepsLastOr(g, Without(s, x), rest + {x})
  {
    if s != [] {
      var s', l := s[..|s| - 1], s[|s| - 1];
      assert s == s' + [l];
      OrderSnoc(g, s', l, rest);
      WithoutSnoc(s', x, l);
      WithoutKeepsOrder(g, s', x, rest + {l});
      assert rest + {l} + {x} == rest + {x} + {l};
      if l == x {
        assert rest + {x} + {l} == rest + {x};
      } else {
        OrderSnoc(g, Without(s', x), l, rest + {x});
      }
    }
  }

  lemma {:induction false} WithoutAllKeepsOrder<T>(g: Graph<T>, s: seq<T>, xs: seq<T>, rest: set<T>)
    requires DepsLastOr(g, s, rest)
    ensures DepsLastOr(g, WithoutAll(s, xs), rest + Elements(xs))
    ensures forall y :: y in WithoutAll(s, xs) <==> y in s && y !in xs
  {
    if xs == [] {
      assert rest + Elements(xs) == rest;
    } else {
      var xs', x := xs[..|xs| - 1], xs[|xs| - 1];
      WithoutAllKeepsOrder(g, s, xs', rest);
      WithoutKeepsOrder(g, WithoutAll(s, xs'), x, rest + Elements(xs'));
      WithoutElements(WithoutAll(s, xs'), x);
      assert xs == xs' + [x];
      assert rest + Elements(xs') + {x} == rest + Elements(xs);
    }
  }

  lemma OrderedConcat<T>(g: Graph<T>, s: seq<T>, t: seq<T>)
    requires DepsLastOr(g, s, Elements(t)) && DepsLast(g, t)
    ensures DepsLast(g, s + t)
  {
    var r := s + t;
    forall i | 0 <= i < |r| ensures r[i] in g && forall d <- g[r[i]] :: d in r[i + 1..] {
      if i < |s| {
        assert r[i + 1..] == s[i + 1..] + t;
      } else {
        assert r[i + 1..] == t[i - |s| + 1..];
      }
    }
  }

  /** One direct dependency: pushed, with everything it reaches bumped behind it. */
  lemma BumpStep<T>(g: Graph<T>, s: seq<T>, d: T, xs: seq<T>)
    requires d in g && (forall y <- g[d] :: y in xs)
    requires DepsLast(g, Lasts(s)) && DepsLast(g, Lasts(xs))
    ensures DepsLast(g, Lasts(BumpAll(s + [d], xs)))
    ensures forall y :: y in BumpAll(s + [d], xs) <==> y in s || y == d || y in xs
  {
    hide Lasts, Without, WithoutAll, Bump, BumpAll;
    var r := BumpAll(s + [d], xs);
    LastsOfBumpAll(s + [d], xs);
    LastsElements(r);
    LastsElements(s + [d] + xs);
    LastsElements(xs);
    LastsOfConcat(s + [d], xs);
    LastsSnoc(s, d);
    var a := Without(Lasts(s), d);
    PushedOrder(g, Lasts(s), d, Elements(xs));
    WithoutAllKeepsOrder(g, a + [d], xs, Elements(xs));
    assert Elements(xs) + Elements(xs) == Elements(Lasts(xs));
    OrderedConcat(g, WithoutAll(a + [d], xs), Lasts(xs));
  }

  lemma PushedOrder<T>(g: Graph<T>, s: seq<T>, d: T, rest: set<T>)
    requires d in g && (forall y <- g[d] :: y in rest) && DepsLast(g, s)
    ensures DepsLastOr(g, Without(s, d) + [d], rest)
  {
    WithoutKeepsOrder(g, s, d, rest);
    OrderSnoc(g, Without(s, d), d, rest);
  }

  lemma {:induction false} PreOrderLasts<T(!new)>(g: Graph<T>, n: T)
    requires Closed(g) && n in g && AcyclicFrom(g, n)
    ensures DepsLast(g, Lasts(PreOrder(g, n))) && Elements(PreOrder(g, n)) == Reach(g, n)
    decreases Reach(g, n), |g[n]| + 1
  {
    var l := PreOrder(g, n);
    PreOverLasts(g, n, |g[n]|);
    LastsElements(l);
    forall x | x in Elements(l) ensures x in g && forall d <- g[x] :: d in Elements(l) {
      assert x in Lasts(l);
      var i :| 0 <= i < |Lasts(l)| && Lasts(l)[i] == x;
      forall d | d in g[x] ensures d in l {
        assert d in Lasts(l)[i + 1..];
        assert d in Lasts(l);
      }
    }
    ReachIsLeast(g, n, Elements(l));
  }

  lemma {:induction false} PreOverLasts<T(!new)>(g: Graph<T>, n: T, k: nat)
    requires Closed(g) && n in g && AcyclicFrom(g, n) && k <= |g[n]|
    ensures LinkedUpTo(g, n, k, PreOver(g, n, k))
    decreases Reach(g, n), k
  {
    if k > 0 {
      var d := g[n][k - 1];
      AcyclicEdge(g, n, d);
      PreOverLasts(g, n, k - 1);
      PreOrderLasts(g, d);
      hide LinkedUpTo, Reach, DepsLast, Lasts, BumpAll;
      PreOverStep(g, n, k - 1, PreOver(g, n, k - 1), PreOrder(g, d));
    }
  }

  /** The list holds the first `k` direct dependencies, and nothing but what `n` reaches, in linker order. */
  ghost predicate LinkedUpTo<T(!new)>(g: Graph<T>, n: T, k: nat, l: seq<T>)
    requires n in g && k <= |g[n]|
  {
    DepsLast(g, Lasts(l)) && Elements(l) <= Reach(g, n) && forall i :: 0 <= i < k ==> g[n][i] in l
  }

  lemma PreOverStep<T(!new)>(g: Graph<T>, n: T, k: nat, s: seq<T>, xs: seq<T>)
    requires Closed(g) && n in g && k < |g[n]|
    requires LinkedUpTo(g, n, k, s)
    requires DepsLast(g, Lasts(xs)) && Elements(xs) == Reach(g, g[n][k])
    ensures LinkedUpTo(g, n, k + 1, BumpAll(s + [g[n][k]], xs))
  {
    hide Lasts, BumpAll;
    var d := g[n][k];
    ReachOfEdge(g, n, d);
    forall y | y in g[d] ensures y in xs {
      EdgeReaches(g, d, y);
      assert y in Elements(xs);
    }
    BumpStep(g, s, d, xs);
    forall x | x in BumpAll(s + [d], xs) ensures x in Reach(g, n) {
      assert x in s ==> x in Elements(s);
      assert x in xs ==> x in Elements(xs);
    }
  }

  /** Positions in `Lasts` follow the positions of last occurrences. */
  lemma {:induction false} LastsFollowPositions<T>(s: seq<T>, i: nat, j: nat)
    requires i < j < |Lasts(s)|
    ensures Lasts(s)[i] in s && Lasts(s)[j] in s && LastIndex(s, Lasts(s)[i]) < LastIndex(s, Lasts(s)[j])
  {
    var s', x := s[..|s| - 1], s[|s| - 1];
    var w := Without(Lasts(s'), x);
    assert s == s' + [x] && Lasts(s) == w + [x];
    FrontMember(s', x, w[i]);
    if j < |w| {
      FrontMember(s', x, w[j]);
      var i', j' := WithoutPositions(Lasts(s'), x, i, j);
      LastsFollowPositions(s', i', j');
    }
  }

  lemma FrontMember<T>(s: seq<T>, x: T, y: T)
    requires y in Without(Lasts(s), x)
    ensures y in s && LastIndex(s + [x], y) == LastIndex(s, y) < |s|
  {
    WithoutElements(Lasts(s), x);
    LastsElements(s);
    LastIndexSnoc(s, x, y);
  }

  lemma LastIndexSnoc<T>(s: seq<T>, x: T, y: T)
    requires y in s && y != x
    ensures LastIndex(s + [x], y) == LastIndex(s, y)
  {
    assert (s + [x])[..|s + [x]| - 1] == s;
  }

  lemma {:induction false} WithoutPositions<T>(s: seq<T>, x: T, i: nat, j: nat) returns (i': nat, j': nat)
    requires i < j < |Without(s, x)|
    ensures i' < j' < |s| && s[i'] == Without(s, x)[i] && s[j'] == Without(s, x)[j]
  {
    var s', l := s[..|s| - 1], s[|s| - 1];
    if j < |Without(s', x)| {
      i', j' := WithoutPositions(s', x, i, j);
    } else {
      i' := WithoutPosition(s', x, i);
      j' := |s| - 1;
    }
  }

  lemma {:induction false} WithoutPosition<T>(s: seq<T>, x: T, i: nat) returns (i': nat)
    requires i < |Without(s, x)|
    ensures i' < |s| && s[i'] == Without(s, x)[i]
  {
    var s' := s[..|s| - 1];
    if i < |Without(s', x)| {
      i' := WithoutPosition(s', x, i);
    } else {
      i' := |s| - 1;
    }
  }

  /**
   Linker order: on an acyclic graph the list holds exactly what is reachable, and the last
   occurrence of every package comes before the last occurrence of each of its direct
   dependencies.
   */
  lemma LinkerOrder<T(!new)>(g: Graph<T>, n: T)
    requires Closed(g) && n in g && AcyclicFrom(g, n)
    ensures Elements(PreOrder(g, n)) == Reach(g, n)
    ensures forall x <- PreOrder(g, n) :: x in g && forall y <- g[x] ::
      y in PreOrder(g, n) && LastIndex(PreOrder(g, n), x) < LastIndex(PreOrder(g, n), y)
  {
    var l := PreOrder(g, n);
    PreOrderLasts(g, n);
    LastsElements(l);
    forall x, y | x in l && y in g[x] ensures y in l && LastIndex(l, x) < LastIndex(l, y) {
      assert x in Lasts(l);
      var i :| 0 <= i < |Lasts(l)| && Lasts(l)[i] == x;
      assert y in Lasts(l)[i + 1..];
      var j :| i + 1 <= j < |Lasts(l)| && Lasts(l)[j] == y;
      LastsFollowPositions(l, i, j);
    }
  }

  // ---------------------------------------------------------------- repetitions

  lemma {:induction false} NoDupCounts<T>(s: seq<T>)
    ensures NoDup(s) <==> forall x :: multiset(s)[x] <= 1
  {
    if s != [] {
      var s', l := s[..|s| - 1], s[|s| - 1];
      assert s == s' + [l];
      NoDupCounts(s');
      NoDupSnoc(s', l);
      assert forall x :: multiset(s)[x] == multiset(s')[x] + if x == l then 1 else 0;
      assert multiset(s')[l] == 0 <==> l !in s';
    }
  }

  lemma {:induction false} RemovedCounts<T>(s: seq<T>, x: T)
    requires x in s
    ensures multiset(RemoveFirst(s, x)) == multiset(s) - multiset{x}
  {
    assert s == [s[0]] + s[1..];
    if s[0] != x {
      RemovedCounts(s[1..], x);
    }
  }

  /** Bumping adds no copy of anything. */
  lemma BumpOnce<T>(s: seq<T>, x: T)
    ensures NoDup(Bump(s, x)) <==> NoDup(s)
  {
    if x in s {
      RemovedCounts(s, x);
      NoDupCounts(s);
      NoDupCounts(Bump(s, x));
      assert multiset(Bump(s, x)) == multiset(s);
    } else {
      NoDupSnoc(s, x);
    }
  }

  lemma {:induction false} BumpAllOnce<T>(s: seq<T>, xs: seq<T>)
    ensures NoDup(BumpAll(s, xs)) <==> NoDup(s)
  {
    hide Bump, NoDup;
    if xs != [] {
      BumpAllOnce(s, xs[..|xs| - 1]);
      BumpOnce(BumpAll(s, xs[..|xs| - 1]), xs[|xs| - 1]);
    }
  }

  lemma BumpAllMembers<T>(s: seq<T>, xs: seq<T>, y: T)
    ensures y in BumpAll(s, xs) <==> y in s || y in xs
  {
    LastsOfBumpAll(s, xs);
    LastsElements(BumpAll(s, xs));
    LastsElements(s + xs);
  }

  lemma {:induction false} PreOverMembers<T(!new)>(g: Graph<T>, n: T, k: nat, y: T)
    requires Closed(g) && n in g && AcyclicFrom(g, n) && k <= |g[n]|
    ensures y in PreOver(g, n, k) <==> exists i :: 0 <= i < k && (y == g[n][i] || y in Reach(g, g[n][i]))
    decreases k
  {
    hide Reach, BumpAll;
    if k > 0 {
      var d := g[n][k - 1];
      AcyclicEdge(g, n, d);
      PreOverMembers(g, n, k - 1, y);
      PreOrderLasts(g, d);
      assert y in PreOrder(g, d) <==> y in Elements(PreOrder(g, d));
      BumpAllMembers(PreOver(g, n, k - 1) + [d], PreOrder(g, d), y);
    }
  }

  /** No direct dependency among the first `k` is named again, or reached, by an earlier one. */
  ghost predicate NamedOnce<T(!new)>(g: Graph<T>, n: T, k: nat)
    requires n in g && k <= |g[n]|
  {
    forall i, j :: 0 <= i < j < k ==> g[n][j] != g[n][i] && g[n][j] !in Reach(g, g[n][i])
  }

  lemma {:induction false} PreOverOnce<T(!new)>(g: Graph<T>, n: T, k: nat)
    requires Closed(g) && n in g && AcyclicFrom(g, n) && k <= |g[n]|
    ensures NoDup(PreOver(g, n, k)) <==> NamedOnce(g, n, k)
    decreases k
  {
    hide Reach, BumpAll, NoDup;
    if k == 0 {
      NothingTwice<T>();
    } else {
      var d := g[n][k - 1];
      AcyclicEdge(g, n, d);
      PreOverOnce(g, n, k - 1);
      PreOverMembers(g, n, k - 1, d);
      var s := PreOver(g, n, k - 1);
      BumpAllOnce(s + [d], PreOrder(g, d));
      NoDupSnoc(s, d);
    }
  }

  lemma NothingTwice<T>()
    ensures NoDup<T>([])
  {
  }

  /**
   The list holds nothing twice exactly when no direct dependency of the package is named
   again, or reached, by one that comes before it: only a push of what is already listed adds
   a copy.
   */
  lemma PreOrderOnce<T(!new)>(g: Graph<T>, n: T)
    requires Closed(g) && n in g && AcyclicFrom(g, n)
    ensures NoDup(PreOrder(g, n)) <==>
      forall i, j :: 0 <= i < j < |g[n]| ==> g[n][j] != g[n][i] && g[n][j] !in Reach(g, g[n][i])
  {
    PreOverOnce(g, n, |g[n]|);
  }

  /** The list can hold a package twice. */
  lemma RepetitionsHappen()
    ensures
      var g := map["n" := ["a", "b"], "a" := ["b"], "b" := []];
      Closed(g) && AcyclicFrom(g, "n") && PreOrder(g, "n") == ["a", "b", "b"]
  {
    var g := map["n" := ["a", "b"], "a" := ["b"], "b" := []];
    assert AcyclicFrom(g, "b") by { AcyclicFromDeps(g, "b"); }
    assert AcyclicFrom(g, "a") by { AcyclicFromDeps(g, "a"); }
    assert AcyclicFrom(g, "n") by { AcyclicFromDeps(g, "n"); }
    assert PreOrder(g, "b") == [];
    PreOverNext(g, "a", 0, "b", [], []);
    PreOverNext(g, "n", 0, "a", [], ["b"]);
    assert BumpAll(["a"], ["b"]) == Bump(["a"], "b") by { assert ["b"][..0] == []; }
    PreOverNext(g, "n", 1, "b", ["a", "b"], []);
  }

  lemma PreOverNext<T(!new)>(g: Graph<T>, n: T, k: nat, d: T, s: seq<T>, xs: seq<T>)
    requires Closed(g) && n in g && AcyclicFrom(g, n) && k < |g[n]| && g[n][k] == d && d in g && AcyclicFrom(g, d)
    requires PreOver(g, n, k) == s && PreOrder(g, d) == xs
    ensures PreOver(g, n, k + 1) == BumpAll(s + [d], xs)
  {
  }
}
