/**
 The two dependency engines agree: on the same manifests they accept the same packages, up
 to cycles, and list the same dependencies in the same order.
 */
module Engines {
  import opened Sequences
  import opened Graph
  import Rp
  import Rospack

  type Manifests = Rp.Manifests

  function Named(names: seq<string>): seq<Rp.Node>
  {
    if names == [] then [] else Named(names[..|names| - 1]) + [Rp.Known(names[|names| - 1])]
  }

  lemma {:induction false} NamedConcat(a: seq<string>, b: seq<string>)
    ensures Named(a + b) == Named(a) + Named(b)
  {
    if b == [] {
      assert a + b == a;
    } else {
      NamedConcat(a, b[..|b| - 1]);
      assert (a + b)[..|a + b| - 1] == a + b[..|b| - 1];
    }
  }

  lemma NamedNothing()
    ensures Named([]) == []
  {
  }

  lemma NamedOne(x: string)
    ensures Named([x]) == [Rp.Known(x)]
  {
    assert [x][..0] == [];
  }

  lemma {:induction false} NamedAt(names: seq<string>)
    ensures |Named(names)| == |names|
    ensures forall i :: 0 <= i < |names| ==> Named(names)[i] == Rp.Known(names[i])
  {
    if names != [] {
      NamedAt(names[..|names| - 1]);
    }
  }

  lemma NamedMember(names: seq<string>, x: string)
    ensures Rp.Known(x) in Named(names) <==> x in names
  {
    NamedAt(names);
    if x in names {
      var i :| 0 <= i < |names| && names[i] == x;
      assert Named(names)[i] == Rp.Known(x);
    }
  }

  lemma {:induction false} NamedAppend(acc: seq<string>, s: seq<string>)
    ensures AppendNew(Named(acc), Named(s)) == Named(AppendNew(acc, s))
  {
    if s != [] {
      var s', x := s[..|s| - 1], s[|s| - 1];
      NamedAppend(acc, s');
      var r := AppendNew(acc, s');
      NamedMember(r, x);
      NamedConcat(r, [x]);
      NamedOne(x);
      assert Named(s)[..|Named(s)| - 1] == Named(s');
    }
  }

  lemma {:induction false} PrefixesAgree(ms: Manifests, n: string, k: nat)
    requires n in ms && Rp.Good(ms, n) && k <= |ms[n].value|
    ensures Rp.ParsedPrefix(ms.Keys, n, ms[n].value, k) == Named(Rospack.DirectPrefix(ms.Keys, ms[n].value, k))
  {
    if k > 0 {
      PrefixesAgree(ms, n, k - 1);
      var d := ms[n].value[k - 1];
      assert Rp.GoodEntry(ms.Keys, n, d);
      NamedConcat(Rospack.DirectPrefix(ms.Keys, ms[n].value, k - 1), [d.value]);
      NamedOne(d.value);
    }
  }

  /** A good manifest means the same to both engines. */
  lemma LinksAgree(ms: Manifests, n: string)
    requires n in ms && (Rp.Good(ms, n) || Rospack.GoodFrom(ms, n))
    ensures n in Rospack.NameGraph(ms)
    ensures Closed(Rp.DepGraph(ms)) && Closed(Rospack.NameGraph(ms)) && Rp.Known(n) in Rp.DepGraph(ms)
    ensures Rp.DepGraph(ms)[Rp.Known(n)] == Named(Rospack.NameGraph(ms)[n])
  {
    Rp.DepGraphIsClosed(ms);
    Rospack.NameGraphIsClosed(ms);
    PrefixesAgree(ms, n, |ms[n].value|);
    assert Rospack.Readable(ms, n) by {
      forall i | 0 <= i < |ms[n].value| ensures Rospack.ReadableEntry(n, ms[n].value[i]) {
        assert Rp.GoodEntry(ms.Keys, n, ms[n].value[i]);
      }
    }
  }

  /** The engines find the same manifests good all the way down. */
  lemma GoodnessAgrees(ms: Manifests, n: string)
    requires n in ms
    ensures Rp.GoodFrom(ms, n) <==> Rospack.GoodFrom(ms, n)
  {
    Rp.DepGraphIsClosed(ms);
    Rospack.NameGraphIsClosed(ms);
    if Rospack.GoodFrom(ms, n) {
      OldIsGood(ms, n);
    }
    if Rp.GoodFrom(ms, n) {
      NewIsGood(ms, n);
    }
  }

  lemma OldIsGood(ms: Manifests, n: string)
    requires n in ms && Rospack.GoodFrom(ms, n)
    ensures Rp.GoodFrom(ms, n)
  {
    var g, h := Rospack.NameGraph(ms), Rp.DepGraph(ms);
    LinksAgree(ms, n);
    var s := set x | x in Reach(g, n) :: Rp.Known(x);
    forall x | x == n || x in Reach(g, n) ensures forall d <- h[Rp.Known(x)] :: d in s {
      LinksAgree(ms, x);
      NamedAt(g[x]);
      forall i | 0 <= i < |g[x]| ensures g[x][i] in Reach(g, n) {
        if x == n {
          EdgeReaches(g, n, g[n][i]);
        } else {
          ReachIsClosed(g, n, x, g[x][i]);
        }
      }
    }
    ReachIsLeast(h, Rp.Known(n), s);
  }

  lemma NewIsGood(ms: Manifests, n: string)
    requires n in ms && Rp.GoodFrom(ms, n)
    ensures Rospack.GoodFrom(ms, n)
  {
    var g, h := Rospack.NameGraph(ms), Rp.DepGraph(ms);
    LinksAgree(ms, n);
    var s := set x | x in ms && Rp.Known(x) in Reach(h, Rp.Known(n));
    forall x | x == n || x in s ensures forall d <- g[x] :: d in s {
      LinksAgree(ms, x);
      forall d | d in g[x] ensures d in s {
        NamedMember(g[x], d);
        if x == n {
          EdgeReaches(h, Rp.Known(n), Rp.Known(d));
        } else {
          ReachIsClosed(h, Rp.Known(n), Rp.Known(x), Rp.Known(d));
        }
      }
    }
    ReachIsLeast(g, n, s);
  }

  /** A package the old engine can traverse has no cycle for the new one either. */
  lemma {:induction false} AcyclicityAgrees(ms: Manifests, n: string)
    requires n in ms && Rospack.GoodFrom(ms, n) && Closed(Rospack.NameGraph(ms)) && AcyclicFrom(Rospack.NameGraph(ms), n)
    ensures Closed(Rp.DepGraph(ms)) && Rp.Known(n) in Rp.DepGraph(ms) && AcyclicFrom(Rp.DepGraph(ms), Rp.Known(n))
    decreases Reach(Rospack.NameGraph(ms), n)
  {
    var g, h := Rospack.NameGraph(ms), Rp.DepGraph(ms);
    LinksAgree(ms, n);
    NamedAt(g[n]);
    forall d | d in h[Rp.Known(n)] ensures AcyclicFrom(h, d) {
      var i :| 0 <= i < |g[n]| && d == Rp.Known(g[n][i]);
      AcyclicEdge(g, n, g[n][i]);
      Rospack.GoodFromEdge(ms, n, g[n][i]);
      AcyclicityAgrees(ms, g[n][i]);
    }
    AcyclicFromDeps(h, Rp.Known(n));
  }

  lemma {:induction false} OrdersAgree(ms: Manifests, n: string, k: nat)
    requires n in ms && Rospack.GoodFrom(ms, n) && Closed(Rospack.NameGraph(ms)) && AcyclicFrom(Rospack.NameGraph(ms), n)
    requires Closed(Rp.DepGraph(ms)) && Rp.Known(n) in Rp.DepGraph(ms) && AcyclicFrom(Rp.DepGraph(ms), Rp.Known(n))
    requires k <= |Rospack.NameGraph(ms)[n]|
    ensures k <= |Rp.DepGraph(ms)[Rp.Known(n)]|
    ensures PostOver(Rp.DepGraph(ms), Rp.Known(n), k) == Named(PostOver(Rospack.NameGraph(ms), n, k))
    ensures HeightOver(Rp.DepGraph(ms), Rp.Known(n), k) == HeightOver(Rospack.NameGraph(ms), n, k)
    decreases Reach(Rospack.NameGraph(ms), n), k
  {
    hide Rospack.NameGraph, Rp.DepGraph, Rospack.GoodFrom, AcyclicFrom, Closed, Reach, AppendNew, Named, Rp.Good;
    var g, h := Rospack.NameGraph(ms), Rp.DepGraph(ms);
    LinksAgree(ms, n);
    NamedAt(g[n]);
    NamedNothing();
    if k > 0 {
      var d := g[n][k - 1];
      AcyclicEdge(g, n, d);
      Rospack.GoodFromEdge(ms, n, d);
      AcyclicityAgrees(ms, d);
      OrdersAgree(ms, n, k - 1);
      LinksAgree(ms, d);
      NamedAt(g[d]);
      OrdersAgree(ms, d, |g[d]|);
      OneAgrees(PostOver(g, n, k - 1), PostOrder(g, d), d);
    }
  }

  lemma OneAgrees(acc: seq<string>, post: seq<string>, d: string)
    ensures AppendNew(Named(acc), Named(post) + [Rp.Known(d)]) == Named(AppendNew(acc, post + [d]))
  {
    NamedAppend(acc, post + [d]);
    NamedConcat(post, [d]);
    NamedOne(d);
  }

  /**
   On every acyclic graph of good manifests, the memoised list-merging traversal and the
   depth-first search with a visited set give the same sequence, which has no repetitions,
   holds exactly what is reachable, and puts every package after its dependencies; and both
   succeed when no chain has more than 1000 edges.
   */
  lemma EnginesAgree(ms: Manifests, n: string)
    requires n in ms && Rospack.GoodFrom(ms, n) && Closed(Rospack.NameGraph(ms)) && AcyclicFrom(Rospack.NameGraph(ms), n)
    ensures Closed(Rp.DepGraph(ms)) && Rp.Known(n) in Rp.DepGraph(ms) && AcyclicFrom(Rp.DepGraph(ms), Rp.Known(n))
    ensures PostOrder(Rp.DepGraph(ms), Rp.Known(n)) == Named(PostOrder(Rospack.NameGraph(ms), n))
    ensures Rospack.LeavesRoom(ms, n, 0) <==> Rp.Fits(Rp.DepGraph(ms), Rp.Known(n), 0)
    ensures var s := PostOrder(Rospack.NameGraph(ms), n);
      NoDup(s) && Elements(s) == Reach(Rospack.NameGraph(ms), n) && DepsFirst(Rospack.NameGraph(ms), s)
  {
    LinksAgree(ms, n);
    NamedAt(Rospack.NameGraph(ms)[n]);
    AcyclicityAgrees(ms, n);
    OrdersAgree(ms, n, |Rospack.NameGraph(ms)[n]|);
    PostOrderIsTopological(Rospack.NameGraph(ms), n);
  }
}
