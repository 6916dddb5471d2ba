/**
 Finite dependency graphs: reachability by one or more edges, acyclicity, chains, and the
 orders in which the dependency engines list what they reach.
 */
module Graph {
  import opened Sequences

  type Graph<T> = map<T, seq<T>>

  /** traversal_order_t */
  datatype Order = Preorder | Postorder

  /** Every dependency is a node. */
  ghost predicate Closed<T>(g: Graph<T>)
  {
    forall n <- g :: forall d <- g[n] :: d in g
  }

  ghost predicate Walk<T>(g: Graph<T>, p: seq<T>)
  {
    && p != []
    && (forall i :: 0 <= i < |p| ==> p[i] in g)
    && (forall i :: 1 <= i < |p| ==> p[i] in g[p[i - 1]])
  }

  /** A dependency path with at least one edge. */
  ghost predicate Chain<T>(g: Graph<T>, p: seq<T>, a: T, b: T)
  {
    Walk(g, p) && |p| >= 2 && p[0] == a && p[|p| - 1] == b
  }

  ghost predicate Reaches<T(!new)>(g: Graph<T>, a: T, b: T)
  {
    exists p :: Chain(g, p, a, b)
  }

  /** Everything reachable by one or more edges. */
  ghost function Reach<T(!new)>(g: Graph<T>, a: T): set<T>
  {
    set b | b in g && Reaches(g, a, b)
  }

  /** No node reachable from `n`, nor `n` itself, depends on itself. */
  ghost predicate AcyclicFrom<T(!new)>(g: Graph<T>, n: T)
  {
    !Reaches(g, n, n) && forall m <- Reach(g, n) :: !Reaches(g, m, m)
  }

  lemma EdgeReaches<T(!new)>(g: Graph<T>, a: T, b: T)
    requires Closed(g) && a in g && b in g[a]
    ensures Reaches(g, a, b) && b in Reach(g, a)
  {
    assert Chain(g, [a, b], a, b);
  }

  lemma ReachesTransitive<T(!new)>(g: Graph<T>, a: T, b: T, c: T)
    requires Reaches(g, a, b) && Reaches(g, b, c)
    ensures Reaches(g, a, c)
  {
    var p :| Chain(g, p, a, b);
    var q :| Chain(g, q, b, c);
    var r := p + q[1..];
    forall i | 1 <= i < |r| ensures r[i] in g[r[i - 1]] {
      if i >= |p| {
        assert r[i] == q[i - |p| + 1] && r[i - 1] == q[i - |p|];
      }
    }
    assert Chain(g, r, a, c);
  }

  /** The first edge of a chain. */
  lemma ReachesThrough<T(!new)>(g: Graph<T>, a: T, b: T) returns (d: T)
    requires Reaches(g, a, b)
    ensures a in g && d in g[a] && d in g && (d == b || Reaches(g, d, b))
  {
    var p :| Chain(g, p, a, b);
    d := p[1];
    if |p| > 2 {
      assert forall i :: 1 <= i < |p[1..]| ==> p[1..][i] == p[i + 1] && p[1..][i - 1] == p[i];
      assert Chain(g, p[1..], d, b);
    }
  }

  /** A set that contains the direct dependencies and the dependencies of its members contains everything reachable. */
  lemma {:induction false} ReachIsLeast<T(!new)>(g: Graph<T>, a: T, s: set<T>)
    requires a in g && (forall d <- g[a] :: d in s)
    requires forall x <- s :: x in g && forall d <- g[x] :: d in s
    ensures Reach(g, a) <= s
  {
    forall b | b in Reach(g, a) ensures b in s {
      var p :| Chain(g, p, a, b);
      ChainStays(g, p, s, |p| - 1);
    }
  }

  lemma {:induction false} ChainStays<T>(g: Graph<T>, p: seq<T>, s: set<T>, i: nat)
    requires Walk(g, p) && 1 <= i < |p| && (forall d <- g[p[0]] :: d in s)
    requires forall x <- s :: x in g && forall d <- g[x] :: d in s
    ensures p[i] in s
  {
    if i > 1 {
      ChainStays(g, p, s, i - 1);
    }
  }

  lemma ReachOfEdge<T(!new)>(g: Graph<T>, a: T, d: T)
    requires Closed(g) && a in g && d in g[a]
    ensures d in Reach(g, a) && Reach(g, d) <= Reach(g, a)
  {
    EdgeReaches(g, a, d);
    forall b | b in Reach(g, d) ensures b in Reach(g, a) {
      ReachesTransitive(g, a, d, b);
    }
  }

  lemma ReachIsClosed<T(!new)>(g: Graph<T>, a: T, b: T, d: T)
    requires Closed(g) && b in Reach(g, a) && d in g[b]
    ensures d in Reach(g, a)
  {
    EdgeReaches(g, b, d);
    ReachesTransitive(g, a, b, d);
  }

  /** Going down one edge of an acyclic graph leaves the dependency itself behind. */
  lemma AcyclicEdge<T(!new)>(g: Graph<T>, a: T, d: T)
    requires Closed(g) && a in g && d in g[a] && AcyclicFrom(g, a)
    ensures d in g && AcyclicFrom(g, d) && Reach(g, d) < Reach(g, a) && d !in Reach(g, d) && a != d && a !in Reach(g, d)
  {
    ReachOfEdge(g, a, d);
    if a in Reach(g, d) {
      ReachesTransitive(g, a, d, a);
    }
  }

  /** Acyclicity from the dependencies upwards. */
  lemma AcyclicFromDeps<T(!new)>(g: Graph<T>, a: T)
    requires Closed(g) && a in g && forall d <- g[a] :: AcyclicFrom(g, d)
    ensures AcyclicFrom(g, a)
  {
    if Reaches(g, a, a) {
      var d := ReachesThrough(g, a, a);
      assert false;
    }
    forall m | m in Reach(g, a) ensures !Reaches(g, m, m) {
      var d := ReachesThrough(g, a, m);
      if d != m {
        assert m in Reach(g, d);
      }
    }
  }

  /** The number of edges of the longest chain from `n`. */
  ghost function Height<T(!new)>(g: Graph<T>, n: T): nat
    requires Closed(g) && n in g && AcyclicFrom(g, n)
    decreases Reach(g, n), |g[n]| + 1
  {
    HeightOver(g, n, |g[n]|)
  }

  ghost function HeightOver<T(!new)>(g: Graph<T>, n: T, k: nat): nat
    requires Closed(g) && n in g && AcyclicFrom(g, n) && k <= |g[n]|
    decreases Reach(g, n), k
  {
    if k == 0 then 0
    else
      AcyclicEdge(g, n, g[n][k - 1]);
      var h := 1 + Height(g, g[n][k - 1]);
      var rest := HeightOver(g, n, k - 1);
      if h > rest then h else rest
  }

  lemma {:induction false} HeightOfEdge<T(!new)>(g: Graph<T>, n: T, k: nat, i: nat)
    requires Closed(g) && n in g && AcyclicFrom(g, n) && i < k <= |g[n]|
    ensures AcyclicFrom(g, g[n][i]) && HeightOver(g, n, k) >= 1 + Height(g, g[n][i])
    decreases k
  {
    AcyclicEdge(g, n, g[n][i]);
    if i < k - 1 {
      HeightOfEdge(g, n, k - 1, i);
    }
  }

  // ---------------------------------------------------------------- sequences without repetition

  function Elements<T>(s: seq<T>): set<T>
  {
    set x <- s
  }

  /** `acc` followed by the elements of `s` that are new, in order. */
  function AppendNew<T(==)>(acc: seq<T>, s: seq<T>): seq<T>
  {
    if s == [] then acc
    else
      var r := AppendNew(acc, s[..|s| - 1]);
      var x := s[|s| - 1];
      if x in r then r else r + [x]
  }

  lemma {:induction false} AppendNewElements<T>(acc: seq<T>, s: seq<T>)
    ensures NoDup(acc) ==> NoDup(AppendNew(acc, s))
    ensures acc <= AppendNew(acc, s)
    ensures forall x :: x in AppendNew(acc, s) <==> x in acc || x in s
  {
    if s != [] {
      AppendNewElements(acc, s[..|s| - 1]);
      assert s == s[..|s| - 1] + [s[|s| - 1]];
    }
  }

  lemma AppendNewStep<T>(acc: seq<T>, s: seq<T>, i: nat)
    requires i < |s|
    ensures var r := AppendNew(acc, s[..i]);
      AppendNew(acc, s[..i + 1]) == if s[i] in r then r else r + [s[i]]
  {
    assert s[..i + 1][..i] == s[..i];
  }

  lemma {:induction false} AppendNewAssociates<T>(a: seq<T>, b: seq<T>, c: seq<T>)
    ensures AppendNew(AppendNew(a, b), c) == AppendNew(a, AppendNew(b, c))
  {
    if c != [] {
      var c', x := c[..|c| - 1], c[|c| - 1];
      AppendNewAssociates(a, b, c');
      var t := AppendNew(b, c');
      AppendNewElements(a, t);
      if x !in t {
        assert (t + [x])[..|t|] == t;
      }
    }
  }

  lemma {:induction false} AppendNewConcat<T>(acc: seq<T>, s: seq<T>, t: seq<T>)
    ensures AppendNew(acc, s + t) == AppendNew(AppendNew(acc, s), t)
  {
    if t == [] {
      assert s + t == s;
    } else {
      AppendNewConcat(acc, s, t[..|t| - 1]);
      assert (s + t)[..|s + t| - 1] == s + t[..|t| - 1];
    }
  }

  lemma {:induction false} AppendNewNothing<T>(acc: seq<T>, s: seq<T>)
    requires forall x <- s :: x in acc
    ensures AppendNew(acc, s) == acc
  {
    if s != [] {
      AppendNewNothing(acc, s[..|s| - 1]);
    }
  }

  lemma {:induction false} AppendNewToEmpty<T>(s: seq<T>)
    requires NoDup(s)
    ensures AppendNew([], s) == s
  {
    if s != [] {
      AppendNewToEmpty(s[..|s| - 1]);
      assert s == s[..|s| - 1] + [s[|s| - 1]];
    }
  }

  // ---------------------------------------------------------------- dependencies first

  /** Every node comes after all its dependencies. */
  ghost predicate DepsFirst<T>(g: Graph<T>, s: seq<T>)
  {
    forall i :: 0 <= i < |s| ==> s[i] in g && forall d <- g[s[i]] :: d in s[..i]
  }

  lemma {:induction false} AppendNewDepsFirst<T>(g: Graph<T>, acc: seq<T>, s: seq<T>)
    requires DepsFirst(g, acc) && DepsFirst(g, s)
    ensures DepsFirst(g, AppendNew(acc, s))
  {
    if s != [] {
      var s', x := s[..|s| - 1], s[|s| - 1];
      assert forall i :: 0 <= i < |s'| ==> s'[..i] == s[..i];
      AppendNewDepsFirst(g, acc, s');
      AppendNewElements(acc, s');
      var r := AppendNew(acc, s');
      if x !in r {
        assert forall i :: 0 <= i < |r| ==> (r + [x])[..i] == r[..i];
        assert (r + [x])[..|r|] == r;
      }
    }
  }

  /** Post-order: for each direct dependency, what it reaches and then itself, without repetitions. */
  ghost function PostOrder<T(!new)>(g: Graph<T>, n: T): seq<T>
    requires Closed(g) && n in g && AcyclicFrom(g, n)
    decreases Reach(g, n), |g[n]| + 1
  {
    PostOver(g, n, |g[n]|)
  }

  ghost function PostOver<T(!new)>(g: Graph<T>, n: T, k: nat): seq<T>
    requires Closed(g) && n in g && AcyclicFrom(g, n) && k <= |g[n]|
    decreases Reach(g, n), k
  {
    if k == 0 then []
    else
      var d := g[n][k - 1];
      AcyclicEdge(g, n, d);
      AppendNew(PostOver(g, n, k - 1), PostOrder(g, d) + [d])
  }

  /** The post-order list has no repetitions, holds exactly what is reachable, and puts dependencies first. */
  lemma {:induction false} PostOrderIsTopological<T(!new)>(g: Graph<T>, n: T)
    requires Closed(g) && n in g && AcyclicFrom(g, n)
    ensures NoDup(PostOrder(g, n)) && Elements(PostOrder(g, n)) == Reach(g, n) && DepsFirst(g, PostOrder(g, n))
    decreases Reach(g, n), |g[n]| + 1
  {
    var k := |g[n]|;
    PostOverIsTopological(g, n, k);
    var s := Elements(PostOver(g, n, k));
    forall x | x in s ensures x in g && forall d <- g[x] :: d in s {
      var i :| 0 <= i < |PostOver(g, n, k)| && PostOver(g, n, k)[i] == x;
      forall d | d in g[x] ensures d in s {
        assert d in PostOver(g, n, k)[..i];
      }
    }
    ReachIsLeast(g, n, s);
  }

  lemma {:induction false} PostOverIsTopological<T(!new)>(g: Graph<T>, n: T, k: nat)
    requires Closed(g) && n in g && AcyclicFrom(g, n) && k <= |g[n]|
    ensures var s := PostOver(g, n, k);
      NoDup(s) && DepsFirst(g, s) && Elements(s) <= Reach(g, n) && forall i :: 0 <= i < k ==> g[n][i] in s
    decreases Reach(g, n), k
  {
    if k > 0 {
      var d := g[n][k - 1];
      AcyclicEdge(g, n, d);
      PostOverIsTopological(g, n, k - 1);
      PostOrderIsTopological(g, d);
      var post := PostOrder(g, d);
      DepsFirstThenNode(g, d, post);
      AppendNewDepsFirst(g, PostOver(g, n, k - 1), post + [d]);
      AppendNewElements(PostOver(g, n, k - 1), post + [d]);
      var s := PostOver(g, n, k);
      ReachOfEdge(g, n, d);
      forall x | x in s ensures x in Reach(g, n) {
        assert x in PostOver(g, n, k - 1) ==> x in Elements(PostOver(g, n, k - 1));
        assert x in post ==> x in Elements(post);
      }
      forall i | 0 <= i < k ensures g[n][i] in s {
        assert g[n][i] in PostOver(g, n, k - 1) || i == k - 1;
      }
    }
  }

  lemma DepsFirstThenNode<T(!new)>(g: Graph<T>, d: T, post: seq<T>)
    requires Closed(g) && d in g && DepsFirst(g, post) && Elements(post) == Reach(g, d)
    ensures DepsFirst(g, post + [d])
  {
    var s := post + [d];
    forall i | 0 <= i < |s| ensures s[i] in g && forall x <- g[s[i]] :: x in s[..i] {
      if i < |post| {
        assert s[..i] == post[..i];
      } else {
        assert s[..i] == post;
        forall x | x in g[d] ensures x in post {
          EdgeReaches(g, d, x);
          assert x in Elements(post);
        }
      }
    }
  }
}
