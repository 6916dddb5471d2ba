/**
 Inverse queries and chain enumeration on a dependency graph: who depends on a package,
 directly or not, and through which chains.
 */
module Chains {
  import opened Sequences
  import opened Graph

  // ---------------------------------------------------------------- the reversed graph

  /** Those among the first `k` packages that depend on `n` directly. */
  ghost function Children<T>(g: Graph<T>, pkgs: seq<T>, n: T, k: nat): seq<T>
    requires k <= |pkgs| && forall p <- pkgs :: p in g
  {
    if k == 0 then []
    else Children(g, pkgs, n, k - 1) + if n in g[pkgs[k - 1]] then [pkgs[k - 1]] else []
  }

  ghost function Reverse<T>(g: Graph<T>, pkgs: seq<T>): Graph<T>
    requires forall p <- pkgs :: p in g
  {
    map n | n in g :: Children(g, pkgs, n, |pkgs|)
  }

  lemma {:induction false} ChildrenElements<T>(g: Graph<T>, pkgs: seq<T>, n: T, k: nat)
    requires k <= |pkgs| && forall p <- pkgs :: p in g
    ensures forall p :: p in Children(g, pkgs, n, k) <==> p in pkgs[..k] && n in g[p]
  {
    if k > 0 {
      ChildrenElements(g, pkgs, n, k - 1);
      assert pkgs[..k] == pkgs[..k - 1] + [pkgs[k - 1]];
    }
  }

  lemma ReverseEdge<T>(g: Graph<T>, pkgs: seq<T>, n: T, p: T)
    requires Elements(pkgs) == g.Keys && (forall p <- pkgs :: p in g) && n in g
    ensures p in Reverse(g, pkgs)[n] <==> p in g && n in g[p]
  {
    assert pkgs[..|pkgs|] == pkgs;
    assert p in pkgs <==> p in Elements(pkgs);
    ChildrenElements(g, pkgs, n, |pkgs|);
  }

  lemma ReverseEdges<T>(g: Graph<T>, pkgs: seq<T>)
    requires Closed(g) && Elements(pkgs) == g.Keys && forall p <- pkgs :: p in g
    ensures Closed(Reverse(g, pkgs)) && Reverse(g, pkgs).Keys == g.Keys
    ensures forall n <- g, p :: p in Reverse(g, pkgs)[n] <==> p in g && n in g[p]
  {
    var h := Reverse(g, pkgs);
    assert h.Keys == g.Keys;
    hide Reverse, Elements;
    forall n, p | n in g ensures p in h[n] <==> p in g && n in g[p] {
      ReverseEdge(g, pkgs, n, p);
    }
    forall n | n in h ensures forall d <- h[n] :: d in h {
      forall d | d in h[n] ensures d in h {
        ReverseEdge(g, pkgs, n, d);
      }
    }
  }

  ghost function Reversed<T>(p: seq<T>): (r: seq<T>)
    ensures |r| == |p| && forall i :: 0 <= i < |p| ==> r[i] == p[|p| - 1 - i]
  {
    seq(|p|, i requires 0 <= i < |p| => p[|p| - 1 - i])
  }

  lemma ReversedChain<T>(g: Graph<T>, h: Graph<T>, p: seq<T>, a: T, b: T)
    requires h.Keys == g.Keys && (forall n <- h, x :: x in h[n] ==> x in g && n in g[x])
    requires Chain(h, p, a, b)
    ensures Chain(g, Reversed(p), b, a)
  {
    var r := Reversed(p);
    forall i | 1 <= i < |r| ensures r[i] in g[r[i - 1]] {
      var j := |p| - i;
      assert p[j] in h[p[j - 1]];
      assert r[i] == p[j - 1] && r[i - 1] == p[j];
    }
  }

  /** A chain of the reversed graph is a chain backwards. */
  lemma ReverseReaches<T(!new)>(g: Graph<T>, pkgs: seq<T>, a: T, b: T)
    requires Closed(g) && Elements(pkgs) == g.Keys && forall p <- pkgs :: p in g
    ensures Reaches(Reverse(g, pkgs), a, b) <==> Reaches(g, b, a)
  {
    var h := Reverse(g, pkgs);
    ReverseEdges(g, pkgs);
    if Reaches(h, a, b) {
      var p :| Chain(h, p, a, b);
      ReversedChain(g, h, p, a, b);
    }
    if Reaches(g, b, a) {
      var p :| Chain(g, p, b, a);
      ReversedChain(h, g, p, b, a);
    }
  }

  /** A graph without cycles, reversed, has none. */
  lemma ReverseIsAcyclic<T(!new)>(g: Graph<T>, pkgs: seq<T>, n: T)
    requires Closed(g) && Elements(pkgs) == g.Keys && (forall p <- pkgs :: p in g) && n in g
    requires forall x <- g :: !Reaches(g, x, x)
    ensures AcyclicFrom(Reverse(g, pkgs), n)
  {
    var h := Reverse(g, pkgs);
    forall x | x in g ensures !Reaches(h, x, x) {
      ReverseReaches(g, pkgs, x, x);
    }
  }

  /** No chain has more than `limit` edges. */
  ghost predicate ChainsFit<T(!new)>(g: Graph<T>, limit: nat)
  {
    forall p :: Walk(g, p) ==> |p| <= limit + 1
  }

  /** The height is the length of a chain. */
  lemma {:induction false} HighestChain<T(!new)>(g: Graph<T>, n: T, k: nat) returns (p: seq<T>)
    requires Closed(g) && n in g && AcyclicFrom(g, n) && k <= |g[n]|
    ensures Walk(g, p) && p[0] == n && |p| == HeightOver(g, n, k) + 1
    decreases Reach(g, n), k
  {
    if k == 0 {
      p := [n];
    } else {
      var d := g[n][k - 1];
      AcyclicEdge(g, n, d);
      p := HighestChain(g, n, k - 1);
      var q := HighestChain(g, d, |g[d]|);
      if |q| + 1 > |p| {
        p := [n] + q;
      }
    }
  }

  lemma ReversedWalk<T>(g: Graph<T>, h: Graph<T>, p: seq<T>)
    requires h.Keys == g.Keys && (forall n <- h, x :: x in h[n] ==> x in g && n in g[x])
    requires Walk(h, p)
    ensures Walk(g, Reversed(p))
  {
    if |p| >= 2 {
      ReversedChain(g, h, p, p[0], p[|p| - 1]);
    }
  }

  /** Chains fit a limit in the reversed graph when they do in the graph. */
  lemma ReverseIsShallow<T(!new)>(g: Graph<T>, pkgs: seq<T>, n: T, limit: nat)
    requires Closed(g) && Elements(pkgs) == g.Keys && (forall p <- pkgs :: p in g) && n in g
    requires (forall x <- g :: !Reaches(g, x, x)) && ChainsFit(g, limit)
    ensures Closed(Reverse(g, pkgs)) && AcyclicFrom(Reverse(g, pkgs), n) && Height(Reverse(g, pkgs), n) <= limit
  {
    var h := Reverse(g, pkgs);
    ReverseEdges(g, pkgs);
    ReverseIsAcyclic(g, pkgs, n);
    var p := HighestChain(h, n, |h[n]|);
    ReversedWalk(g, h, p);
  }

  // ---------------------------------------------------------------- descendants

  /** The list before repetitions are dropped, from the first `k` packages. */
  ghost function DescendantsOver<T(!new)>(g: Graph<T>, pkgs: seq<T>, n: T, k: nat): seq<T>
    requires Closed(g) && Elements(pkgs) == g.Keys && (forall p <- pkgs :: p in g) && n in g && k <= |pkgs|
    requires AcyclicFrom(Reverse(g, pkgs), n)
    decreases Reach(Reverse(g, pkgs), n), k
  {
    if k == 0 then []
    else
      var p := pkgs[k - 1];
      var rest := DescendantsOver(g, pkgs, n, k - 1);
      if n in g[p] then
        ReverseEdges(g, pkgs);
        AcyclicEdge(Reverse(g, pkgs), n, p);
        rest + [p] + Descendants(g, pkgs, p)
      else rest
  }

  /** Whoever depends on `n`, in the order in which packages that depend on it directly are found. */
  ghost function Descendants<T(!new)>(g: Graph<T>, pkgs: seq<T>, n: T): seq<T>
    requires Closed(g) && Elements(pkgs) == g.Keys && (forall p <- pkgs :: p in g) && n in g
    requires AcyclicFrom(Reverse(g, pkgs), n)
    decreases Reach(Reverse(g, pkgs), n), |pkgs| + 1
  {
    AppendNew([], DescendantsOver(g, pkgs, n, |pkgs|))
  }

  /** Holds those of the first `k` packages that depend on `n` directly, and what depends on them. */
  ghost predicate Covers<T(!new)>(g: Graph<T>, pkgs: seq<T>, n: T, k: nat, list: seq<T>)
    requires (forall p <- pkgs :: p in g) && k <= |pkgs|
  {
    var h := Reverse(g, pkgs);
    && Elements(list) <= Reach(h, n)
    && forall i :: 0 <= i < k && n in g[pkgs[i]] ==> pkgs[i] in list && Reach(h, pkgs[i]) <= Elements(list)
  }

  lemma {:induction false} DescendantsReach<T(!new)>(g: Graph<T>, pkgs: seq<T>, n: T)
    requires Closed(g) && Elements(pkgs) == g.Keys && (forall p <- pkgs :: p in g) && n in g
    requires AcyclicFrom(Reverse(g, pkgs), n)
    ensures NoDup(Descendants(g, pkgs, n)) && Elements(Descendants(g, pkgs, n)) == Reach(Reverse(g, pkgs), n)
    decreases Reach(Reverse(g, pkgs), n), |pkgs| + 1
  {
    var all := DescendantsOver(g, pkgs, n, |pkgs|);
    assert Descendants(g, pkgs, n) == AppendNew([], all);
    hide Covers, Reach, Reverse, Closed, AcyclicFrom, AppendNew;
    DescendantsCovered(g, pkgs, n, |pkgs|);
    AppendNewElements([], all);
    assert Elements(AppendNew([], all)) == Elements(all);
    AllCovered(g, pkgs, n, all);
  }

  lemma AllCovered<T(!new)>(g: Graph<T>, pkgs: seq<T>, n: T, all: seq<T>)
    requires Closed(g) && Elements(pkgs) == g.Keys && (forall p <- pkgs :: p in g) && n in g
    requires Covers(g, pkgs, n, |pkgs|, all)
    ensures Elements(all) == Reach(Reverse(g, pkgs), n)
  {
    var h := Reverse(g, pkgs);
    ReverseEdges(g, pkgs);
    forall b | b in Reach(h, n) ensures b in Elements(all) {
      var d := ReachesThrough(h, n, b);
      assert d in Elements(pkgs);
      var i :| 0 <= i < |pkgs| && pkgs[i] == d;
    }
  }

  lemma {:induction false} DescendantsCovered<T(!new)>(g: Graph<T>, pkgs: seq<T>, n: T, k: nat)
    requires Closed(g) && Elements(pkgs) == g.Keys && (forall p <- pkgs :: p in g) && n in g && k <= |pkgs|
    requires AcyclicFrom(Reverse(g, pkgs), n)
    ensures Covers(g, pkgs, n, k, DescendantsOver(g, pkgs, n, k))
    decreases Reach(Reverse(g, pkgs), n), k
  {
    hide Covers, Reach, Reverse, Closed, Elements, AcyclicFrom, AppendNew, NoDup;
    if k == 0 {
      CoversNothing(g, pkgs, n);
    } else {
      var p := pkgs[k - 1];
      DescendantsCovered(g, pkgs, n, k - 1);
      if n in g[p] {
        ReverseEdges(g, pkgs);
        AcyclicEdge(Reverse(g, pkgs), n, p);
        DescendantsReach(g, pkgs, p);
        CoversOne(g, pkgs, n, k - 1, DescendantsOver(g, pkgs, n, k - 1), Descendants(g, pkgs, p));
      } else {
        CoversNone(g, pkgs, n, k - 1, DescendantsOver(g, pkgs, n, k - 1));
      }
    }
  }

  lemma CoversNothing<T(!new)>(g: Graph<T>, pkgs: seq<T>, n: T)
    requires forall p <- pkgs :: p in g
    ensures Covers(g, pkgs, n, 0, [])
  {
  }

  lemma CoversNone<T(!new)>(g: Graph<T>, pkgs: seq<T>, n: T, k: nat, list: seq<T>)
    requires (forall p <- pkgs :: p in g) && k < |pkgs| && Covers(g, pkgs, n, k, list) && n !in g[pkgs[k]]
    ensures Covers(g, pkgs, n, k + 1, list)
  {
  }

  lemma CoversOne<T(!new)>(g: Graph<T>, pkgs: seq<T>, n: T, k: nat, rest: seq<T>, sub: seq<T>)
    requires Closed(g) && Elements(pkgs) == g.Keys && (forall p <- pkgs :: p in g) && n in g && k < |pkgs|
    requires Covers(g, pkgs, n, k, rest) && n in g[pkgs[k]] && Elements(sub) == Reach(Reverse(g, pkgs), pkgs[k])
    ensures Covers(g, pkgs, n, k + 1, rest + [pkgs[k]] + sub)
  {
    var h, p, all := Reverse(g, pkgs), pkgs[k], rest + [pkgs[k]] + sub;
    ReverseEdges(g, pkgs);
    ReachOfEdge(h, n, p);
    assert Elements(all) == Elements(rest) + {p} + Elements(sub);
  }

  /** Descendants are the inverse of dependencies: whoever reaches `n`, once each. */
  lemma DescendantsAreInverse<T(!new)>(g: Graph<T>, pkgs: seq<T>, n: T)
    requires Closed(g) && Elements(pkgs) == g.Keys && (forall p <- pkgs :: p in g) && n in g
    requires AcyclicFrom(Reverse(g, pkgs), n)
    ensures NoDup(Descendants(g, pkgs, n))
    ensures forall x :: x in Descendants(g, pkgs, n) <==> x in g && n in Reach(g, x)
  {
    DescendantsReach(g, pkgs, n);
    ReverseEdges(g, pkgs);
    forall x ensures x in Descendants(g, pkgs, n) <==> x in g && n in Reach(g, x) {
      assert x in Descendants(g, pkgs, n) <==> x in Elements(Descendants(g, pkgs, n));
      ReverseReaches(g, pkgs, n, x);
    }
  }

  // ---------------------------------------------------------------- chains

  /** `push_front` on every chain of a list. */
  function PushFront<T>(x: T, chains: seq<seq<T>>): seq<seq<T>>
  {
    if chains == [] then [] else PushFront(x, chains[..|chains| - 1]) + [[x] + chains[|chains| - 1]]
  }

  ghost function PathsOver<T(!new)>(g: Graph<T>, a: T, b: T, k: nat): seq<seq<T>>
    requires Closed(g) && a in g && AcyclicFrom(g, a) && k <= |g[a]|
    decreases Reach(g, a), k
  {
    if k == 0 then []
    else
      var d := g[a][k - 1];
      AcyclicEdge(g, a, d);
      PathsOver(g, a, b, k - 1) + if d == b then [[a, b]] else PushFront(a, Paths(g, d, b))
  }

  /** The chains from `a` to `b`, in depth-first order. */
  ghost function Paths<T(!new)>(g: Graph<T>, a: T, b: T): seq<seq<T>>
    requires Closed(g) && a in g && AcyclicFrom(g, a)
    decreases Reach(g, a), |g[a]| + 1
  {
    PathsOver(g, a, b, |g[a]|)
  }

  lemma {:induction false} PushFrontAt<T>(x: T, chains: seq<seq<T>>)
    ensures |PushFront(x, chains)| == |chains|
    ensures forall i :: 0 <= i < |chains| ==> PushFront(x, chains)[i] == [x] + chains[i]
  {
    if chains != [] {
      PushFrontAt(x, chains[..|chains| - 1]);
    }
  }

  lemma PushFrontMember<T>(x: T, chains: seq<seq<T>>, p: seq<T>)
    ensures p in PushFront(x, chains) <==> p != [] && p[0] == x && p[1..] in chains
  {
    PushFrontAt(x, chains);
    if p in PushFront(x, chains) {
      var i :| 0 <= i < |chains| && PushFront(x, chains)[i] == p;
      assert p[1..] == chains[i];
    }
    if p != [] && p[0] == x && p[1..] in chains {
      var i :| 0 <= i < |chains| && chains[i] == p[1..];
      assert p == [x] + chains[i];
      assert PushFront(x, chains)[i] == p;
    }
  }

  /** A chain from `a` whose first edge leads to one of the first `k` dependencies. */
  ghost predicate ChainVia<T(!new)>(g: Graph<T>, p: seq<T>, a: T, b: T, k: nat)
    requires a in g && k <= |g[a]|
  {
    Chain(g, p, a, b) && p[1] in g[a][..k]
  }

  /** The first edge and the rest of a chain of an acyclic graph. */
  lemma ChainSplits<T(!new)>(g: Graph<T>, p: seq<T>, a: T, b: T)
    requires Closed(g) && a in g && AcyclicFrom(g, a) && p != [] && p[0] == a
    ensures Chain(g, p, a, b) <==> |p| >= 2 && p[1] in g[a] && if p[1] == b then p == [a, b] else Chain(g, p[1..], p[1], b)
  {
    if Chain(g, p, a, b) && |p| > 2 {
      assert forall i :: 1 <= i < |p[1..]| ==> p[1..][i] == p[i + 1] && p[1..][i - 1] == p[i];
      assert Chain(g, p[1..], p[1], b);
      EdgeReaches(g, a, p[1]);
    }
    if |p| >= 2 && p[1] in g[a] && p[1] != b && Chain(g, p[1..], p[1], b) {
      forall i | 1 <= i < |p| ensures p[i] in g && p[i] in g[p[i - 1]] {
        if i > 1 {
          assert p[1..][i - 1] in g[p[1..][i - 2]];
        }
      }
    }
  }

  lemma {:induction false} PathsOverAre<T(!new)>(g: Graph<T>, a: T, b: T, k: nat)
    requires Closed(g) && a in g && AcyclicFrom(g, a) && k <= |g[a]|
    ensures forall p :: p in PathsOver(g, a, b, k) <==> ChainVia(g, p, a, b, k)
    decreases Reach(g, a), k
  {
    if k > 0 {
      var d := g[a][k - 1];
      AcyclicEdge(g, a, d);
      PathsOverAre(g, a, b, k - 1);
      PathsOverAre(g, d, b, |g[d]|);
      forall p ensures p in PathsOver(g, a, b, k) <==> ChainVia(g, p, a, b, k) {
        PathsStep(g, a, b, k - 1, p);
      }
    }
  }

  lemma PathsOverNext<T(!new)>(g: Graph<T>, a: T, b: T, k: nat)
    requires Closed(g) && a in g && AcyclicFrom(g, a) && k < |g[a]| && AcyclicFrom(g, g[a][k])
    ensures PathsOver(g, a, b, k + 1) == PathsOver(g, a, b, k) + if g[a][k] == b then [[a, b]] else PushFront(a, Paths(g, g[a][k], b))
  {
  }

  lemma PathsStep<T(!new)>(g: Graph<T>, a: T, b: T, k: nat, p: seq<T>)
    requires Closed(g) && a in g && AcyclicFrom(g, a) && k < |g[a]| && AcyclicFrom(g, g[a][k])
    requires p in PathsOver(g, a, b, k) <==> ChainVia(g, p, a, b, k)
    requires forall q :: q in Paths(g, g[a][k], b) <==> ChainVia(g, q, g[a][k], b, |g[g[a][k]]|)
    ensures p in PathsOver(g, a, b, k + 1) <==> ChainVia(g, p, a, b, k + 1)
  {
    hide PathsOver, PushFront, AcyclicFrom, Paths, Walk;
    PathsOverNext(g, a, b, k);
    LastChains(g, a, b, k, p);
    assert g[a][..k + 1] == g[a][..k] + [g[a][k]];
  }

  /** The chains that begin with the edge number `k`. */
  lemma LastChains<T(!new)>(g: Graph<T>, a: T, b: T, k: nat, p: seq<T>)
    requires Closed(g) && a in g && AcyclicFrom(g, a) && k < |g[a]| && AcyclicFrom(g, g[a][k])
    requires forall q :: q in Paths(g, g[a][k], b) <==> ChainVia(g, q, g[a][k], b, |g[g[a][k]]|)
    ensures p in (if g[a][k] == b then [[a, b]] else PushFront(a, Paths(g, g[a][k], b))) <==> Chain(g, p, a, b) && p[1] == g[a][k]
  {
    var d := g[a][k];
    assert g[d][..|g[d]|] == g[d];
    PushFrontMember(a, Paths(g, d, b), p);
    if p != [] && p[0] == a {
      ChainSplits(g, p, a, b);
      ViaAll(g, p[1..], d, b);
    }
  }

  lemma ViaAll<T(!new)>(g: Graph<T>, q: seq<T>, d: T, b: T)
    requires d in g
    ensures ChainVia(g, q, d, b, |g[d]|) <==> Chain(g, q, d, b)
  {
    assert g[d][..|g[d]|] == g[d];
  }

  /** Chain enumeration is exact: the list holds the chains from `a` to `b` and nothing else. */
  lemma PathsAreTheChains<T(!new)>(g: Graph<T>, a: T, b: T)
    requires Closed(g) && a in g && AcyclicFrom(g, a)
    ensures forall p :: p in Paths(g, a, b) <==> Chain(g, p, a, b)
  {
    PathsOverAre(g, a, b, |g[a]|);
    assert g[a][..|g[a]|] == g[a];
  }

  lemma {:induction false} PathsOverOnce<T(!new)>(g: Graph<T>, a: T, b: T, k: nat)
    requires Closed(g) && a in g && AcyclicFrom(g, a) && k <= |g[a]|
    requires NoDup(g[a]) && forall x <- Reach(g, a) :: NoDup(g[x])
    ensures NoDup(PathsOver(g, a, b, k))
    decreases Reach(g, a), k
  {
    if k > 0 {
      var d := g[a][k - 1];
      AcyclicEdge(g, a, d);
      ReachOfEdge(g, a, d);
      PathsOverOnce(g, a, b, k - 1);
      PathsOverOnce(g, d, b, |g[d]|);
      var last := if d == b then [[a, b]] else PushFront(a, Paths(g, d, b));
      assert PathsOver(g, a, b, k) == PathsOver(g, a, b, k - 1) + last;
      hide PathsOver, PushFront;
      PushFrontOnce(a, Paths(g, d, b));
      forall p | p in last ensures p !in PathsOver(g, a, b, k - 1) {
        NotListedBefore(g, a, b, k - 1, p);
      }
      NoDupConcat(PathsOver(g, a, b, k - 1), last);
    }
  }

  lemma PushFrontOnce<T>(a: T, chains: seq<seq<T>>)
    requires NoDup(chains)
    ensures NoDup(PushFront(a, chains))
  {
    PushFrontAt(a, chains);
    var r := PushFront(a, chains);
    forall i, j | 0 <= i < j < |r| ensures r[i] != r[j] {
      assert r[i][1..] == chains[i] && r[j][1..] == chains[j];
    }
  }

  /** A chain through one dependency is not among those through the ones before it. */
  lemma NotListedBefore<T(!new)>(g: Graph<T>, a: T, b: T, k: nat, p: seq<T>)
    requires Closed(g) && a in g && AcyclicFrom(g, a) && k < |g[a]| && AcyclicFrom(g, g[a][k]) && NoDup(g[a])
    requires if g[a][k] == b then p == [a, b] else p in PushFront(a, Paths(g, g[a][k], b))
    ensures p !in PathsOver(g, a, b, k)
  {
    var d := g[a][k];
    PathsOverAre(g, a, b, k);
    if d != b {
      PathsAreTheChains(g, d, b);
      PushFrontMember(a, Paths(g, d, b), p);
    }
    assert |p| >= 2 && p[1] == d;
    assert d !in g[a][..k];
  }

  lemma NoDupConcat<T>(s: seq<T>, t: seq<T>)
    requires NoDup(s) && NoDup(t) && forall x <- t :: x !in s
    ensures NoDup(s + t)
  {
    forall i, j | 0 <= i < j < |s + t| ensures (s + t)[i] != (s + t)[j] {
      if i < |s| <= j {
        assert (s + t)[j] in t && (s + t)[i] in s;
      }
    }
  }

  /** When no package names a dependency twice, every chain is listed once. */
  lemma PathsAreListedOnce<T(!new)>(g: Graph<T>, a: T, b: T)
    requires Closed(g) && a in g && AcyclicFrom(g, a)
    requires NoDup(g[a]) && forall x <- Reach(g, a) :: NoDup(g[x])
    ensures NoDup(Paths(g, a, b))
  {
    PathsOverOnce(g, a, b, |g[a]|);
  }
}
