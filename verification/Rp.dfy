/**
 The rewritten dependency engine: `computeDeps` links stackages once each, and
 `gatherDeps` is a depth-first search with a hash set of visited nodes.
 */
module Rp {
  import opened Wrappers
  import opened Sequences
  import opened Graph
  import opened DepthFirst

  const MAX_DEPENDENCY_DEPTH: nat := 1000

  /**
   A dependency: a crawled stackage, or the placeholder made for a name that is not among
   them. Every placeholder is an object of its own, told apart by where it was created.
   */
  datatype Node = Known(name: string) | Missing(owner: string, index: nat, name: string)

  /** The `package` attributes of the `depend` elements; None for a manifest that does not load. */
  type Manifest = Option<seq<Option<string>>>
  type Manifests = map<string, Manifest>

  // ---------------------------------------------------------------- the graph the manifests describe

  /** The dependencies of the first `k` elements when errors are skipped. */
  function ParsedPrefix(names: set<string>, self: string, entries: seq<Option<string>>, k: nat): seq<Node>
    requires k <= |entries|
  {
    if k == 0 then [] else ParsedPrefix(names, self, entries, k - 1) + Entry(names, self, k - 1, entries[k - 1])
  }

  /** What one `depend` element adds when errors are skipped. */
  function Entry(names: set<string>, self: string, index: nat, entry: Option<string>): seq<Node>
  {
    match entry
    case None => []
    case Some(d) => if d == self then [] else if d !in names then [Missing(self, index, d)] else [Known(d)]
  }

  function Parsed(ms: Manifests, n: string): seq<Node>
    requires n in ms
  {
    if ms[n].None? then [] else ParsedPrefix(ms.Keys, n, ms[n].value, |ms[n].value|)
  }

  function DepsOf(ms: Manifests, d: Node): seq<Node>
  {
    if d.Known? && d.name in ms then Parsed(ms, d.name) else []
  }

  ghost function Nodes(ms: Manifests): set<Node>
  {
    (set n | n in ms :: Known(n)) + (set n, d | n in ms && d in Parsed(ms, n) :: d)
  }

  ghost function DepGraph(ms: Manifests): Graph<Node>
  {
    map d | d in Nodes(ms) :: DepsOf(ms, d)
  }

  /** No error for `computeDeps` to report. */
  predicate Good(ms: Manifests, n: string)
    requires n in ms
  {
    ms[n].Some? && forall i :: 0 <= i < |ms[n].value| ==> GoodEntry(ms.Keys, n, ms[n].value[i])
  }

  predicate GoodEntry(names: set<string>, self: string, entry: Option<string>)
  {
    entry.Some? && entry.value != self && entry.value in names
  }

  /** Good manifests all the way down. */
  ghost predicate GoodFrom(ms: Manifests, n: string)
    requires n in ms
  {
    && Good(ms, n)
    && forall d <- Reach(DepGraph(ms), Known(n)) :: d.Known? && d.name in ms && Good(ms, d.name)
  }

  lemma {:induction false} ParsedHolds(names: set<string>, self: string, entries: seq<Option<string>>, k: nat, i: nat)
    requires i < k <= |entries| && GoodEntry(names, self, entries[i])
    ensures Known(entries[i].value) in ParsedPrefix(names, self, entries, k)
  {
    if i < k - 1 {
      ParsedHolds(names, self, entries, k - 1, i);
    }
  }

  lemma GoodFromEntry(ms: Manifests, n: string, i: nat)
    requires n in ms && GoodFrom(ms, n) && ms[n].Some? && i < |ms[n].value|
    ensures GoodEntry(ms.Keys, n, ms[n].value[i]) && GoodFrom(ms, ms[n].value[i].value)
  {
    var d := ms[n].value[i].value;
    ParsedHolds(ms.Keys, n, ms[n].value, |ms[n].value|, i);
    DepGraphIsClosed(ms);
    ReachOfEdge(DepGraph(ms), Known(n), Known(d));
  }

  lemma NotGood(ms: Manifests, n: string)
    requires n in ms && ms[n].None?
    ensures !GoodFrom(ms, n)
  {
  }

  lemma VisitedGood(ms: Manifests, start: Links, ls: Links, name: string, entries: seq<Option<string>>)
    requires start.Keys == ls.Keys == ms.Keys && NewOnesGood(ms, start, ls, {name})
    requires name in ms && ms[name] == Some(entries) && GoodUpTo(ms.Keys, name, entries, |entries|)
    ensures NewOnesGood(ms, start, ls, {})
  {
  }

  /** The first `k` elements are good. */
  predicate GoodUpTo(names: set<string>, self: string, entries: seq<Option<string>>, k: nat)
    requires k <= |entries|
  {
    forall j :: 0 <= j < k ==> GoodEntry(names, self, entries[j])
  }

  lemma GoodOneMore(names: set<string>, self: string, entries: seq<Option<string>>, k: nat)
    requires k < |entries|
    ensures GoodUpTo(names, self, entries, k) && GoodEntry(names, self, entries[k]) ==> GoodUpTo(names, self, entries, k + 1)
  {
  }

  lemma NothingVisited(ms: Manifests, ls: Links, name: string)
    requires ls.Keys == ms.Keys && name in ls
    ensures Kept(ls, ls, {}) && NewOnesGood(ms, ls, ls, {})
    ensures NewOnesGood(ms, ls, ls[name := Link(true, ls[name].deps)], {name})
  {
  }

  /** What has been visited from a fresh start is good all the way down. */
  lemma VisitedIsGood(ms: Manifests, ls: Links, name: string)
    requires name in ms && Consistent(ms, ls, {}) && ls[name].computed
    requires forall n <- ls :: ls[n].computed ==> Good(ms, n)
    ensures GoodFrom(ms, name)
  {
    var g := DepGraph(ms);
    DepGraphIsClosed(ms);
    var s := set d | d in g && d.Known? && d.name in ls && ls[d.name].computed;
    forall d | d in s + {Known(name)} ensures forall x <- g[d] :: x in s {
      assert Linked(ms, ls, d.name);
      GoodHasNoMissing(ms, d.name);
    }
    ReachIsLeast(g, Known(name), s);
  }

  lemma GoodHasNoMissing(ms: Manifests, n: string)
    requires n in ms && Good(ms, n)
    ensures forall d <- Parsed(ms, n) :: d.Known?
  {
    GoodPrefix(ms.Keys, n, ms[n].value, |ms[n].value|);
  }

  lemma {:induction false} GoodPrefix(names: set<string>, self: string, entries: seq<Option<string>>, k: nat)
    requires k <= |entries| && forall i :: 0 <= i < k ==> GoodEntry(names, self, entries[i])
    ensures forall d <- ParsedPrefix(names, self, entries, k) :: d.Known?
  {
    if k > 0 {
      GoodPrefix(names, self, entries, k - 1);
    }
  }

  lemma {:induction false} ParsedNames(names: set<string>, self: string, entries: seq<Option<string>>, k: nat)
    requires k <= |entries|
    ensures forall d <- ParsedPrefix(names, self, entries, k) :: d.Known? ==> d.name in names
  {
    if k > 0 {
      ParsedNames(names, self, entries, k - 1);
    }
  }

  lemma DepGraphIsClosed(ms: Manifests)
    ensures Closed(DepGraph(ms))
    ensures forall n <- ms :: Known(n) in DepGraph(ms) && DepGraph(ms)[Known(n)] == Parsed(ms, n)
  {
    forall n | n in DepGraph(ms) ensures forall d <- DepGraph(ms)[n] :: d in DepGraph(ms) {
      if n.Known? && n.name in ms {
        assert DepGraph(ms)[n] == Parsed(ms, n.name);
      }
    }
  }

  // ---------------------------------------------------------------- the manifests alone

  /** The manifest of `x` loads and names something other than `x` itself. */
  predicate Names(ms: Manifests, x: string, name: string)
  {
    && x in ms && ms[x].Some? && name != x
    && exists i :: 0 <= i < |ms[x].value| && ms[x].value[i] == Some(name)
  }

  /** Crawled stackages from `x` on, each naming the next, and the last one naming `name`. */
  ghost predicate NameChain(ms: Manifests, p: seq<string>, x: string, name: string)
  {
    && p != [] && p[0] == x
    && (forall i :: 0 <= i < |p| - 1 ==> Names(ms, p[i], p[i + 1]))
    && Names(ms, p[|p| - 1], name)
  }

  ghost predicate NamesInTheEnd(ms: Manifests, x: string, name: string)
  {
    exists p :: NameChain(ms, p, x, name)
  }

  /** What `x` depends on by name, read off the manifests. */
  ghost predicate NamedBy(ms: Manifests, x: string, name: string, direct: bool)
  {
    if direct then Names(ms, x, name) else NamesInTheEnd(ms, x, name)
  }

  lemma NamingIsCrawled(ms: Manifests, x: string, name: string, direct: bool)
    ensures NamedBy(ms, x, name, direct) ==> x in ms
  {
    if !direct && NamedBy(ms, x, name, direct) {
      var p :| NameChain(ms, p, x, name);
      assert Names(ms, x, if |p| == 1 then name else p[1]);
    }
  }

  lemma {:induction false} PrefixHolds(names: set<string>, self: string, entries: seq<Option<string>>, k: nat, i: nat)
    requires i < k <= |entries|
    ensures forall d <- Entry(names, self, i, entries[i]) :: d in ParsedPrefix(names, self, entries, k)
  {
    if i < k - 1 {
      PrefixHolds(names, self, entries, k - 1, i);
    }
  }

  lemma {:induction false} PrefixComesFrom(names: set<string>, self: string, entries: seq<Option<string>>, k: nat, d: Node) returns (i: nat)
    requires k <= |entries| && d in ParsedPrefix(names, self, entries, k)
    ensures i < k && d in Entry(names, self, i, entries[i])
  {
    if d in Entry(names, self, k - 1, entries[k - 1]) {
      i := k - 1;
    } else {
      i := PrefixComesFrom(names, self, entries, k - 1, d);
    }
  }

  /** A dependency for every name in the manifest: the crawled stackage, or a placeholder where there is none. */
  lemma ParsedAreTheNames(ms: Manifests, x: string, name: string)
    requires x in ms
    ensures Names(ms, x, name) <==> exists d <- Parsed(ms, x) :: d.name == name
    ensures forall d <- Parsed(ms, x) :: d.Known? <==> d.name in ms
  {
    if ms[x].Some? {
      var entries := ms[x].value;
      if Names(ms, x, name) {
        var i :| 0 <= i < |entries| && entries[i] == Some(name);
        PrefixHolds(ms.Keys, x, entries, |entries|, i);
        assert Entry(ms.Keys, x, i, entries[i])[0].name == name;
      }
      forall d | d in Parsed(ms, x) ensures Names(ms, x, d.name) && (d.Known? <==> d.name in ms) {
        var i := PrefixComesFrom(ms.Keys, x, entries, |entries|, d);
      }
    }
  }

  /** Every dependency of a manifest without errors, in the order of its elements. */
  lemma {:induction false} GoodManifestInOrder(names: set<string>, self: string, entries: seq<Option<string>>, k: nat)
    requires k <= |entries| && GoodUpTo(names, self, entries, k)
    ensures |ParsedPrefix(names, self, entries, k)| == k
    ensures forall i :: 0 <= i < k ==> ParsedPrefix(names, self, entries, k)[i] == Known(entries[i].value)
  {
    if k > 0 {
      GoodManifestInOrder(names, self, entries, k - 1);
    }
  }

  /** A chain of names is a chain of the graph. */
  lemma {:induction false} NamesAreReached(ms: Manifests, p: seq<string>, x: string, name: string) returns (d: Node)
    requires NameChain(ms, p, x, name)
    ensures d in Reach(DepGraph(ms), Known(x)) && d.name == name
  {
    var g := DepGraph(ms);
    DepGraphIsClosed(ms);
    hide Parsed;
    var y := if |p| == 1 then name else p[1];
    assert Names(ms, x, y);
    hide Names;
    ParsedAreTheNames(ms, x, y);
    d :| d in Parsed(ms, x) && d.name == y;
    ReachOfEdge(g, Known(x), d);
    if |p| > 1 {
      NamesBehind(ms, p, x, name);
      assert d == Known(y);
      d := NamesAreReached(ms, p[1..], y, name);
    }
  }

  lemma NamesBehind(ms: Manifests, p: seq<string>, x: string, name: string)
    requires NameChain(ms, p, x, name) && |p| > 1
    ensures NameChain(ms, p[1..], p[1], name) && p[1] in ms
  {
    assert forall i :: 0 <= i < |p[1..]| ==> p[1..][i] == p[i + 1];
    assert Names(ms, p[1], if |p| == 2 then name else p[2]);
  }

  /** A chain of the graph that ends in something called `name` is a chain of names. */
  lemma {:induction false} ReachedAreNamed(ms: Manifests, w: seq<Node>, x: string, d: Node) returns (p: seq<string>)
    requires x in ms && Chain(DepGraph(ms), w, Known(x), d)
    ensures NameChain(ms, p, x, d.name)
  {
    hide Parsed, Names;
    var g := DepGraph(ms);
    DepGraphIsClosed(ms);
    var e := w[1];
    assert e in Parsed(ms, x);
    ParsedAreTheNames(ms, x, e.name);
    p := [x];
    if |w| > 2 {
      assert w[2] in g[e];
      ChainBehind(g, w, Known(x), d);
      var q := ReachedAreNamed(ms, w[1..], e.name, d);
      p := [x] + q;
      NamesBefore(ms, x, e.name, q, d.name);
    }
  }

  lemma ChainBehind(g: Graph<Node>, w: seq<Node>, a: Node, d: Node)
    requires Chain(g, w, a, d) && |w| > 2
    ensures Chain(g, w[1..], w[1], d)
  {
    assert forall i :: 0 <= i < |w[1..]| ==> w[1..][i] == w[i + 1];
  }

  lemma NamesBefore(ms: Manifests, x: string, y: string, q: seq<string>, name: string)
    requires Names(ms, x, y) && NameChain(ms, q, y, name)
    ensures NameChain(ms, [x] + q, x, name)
  {
    hide Names;
    var p := [x] + q;
    forall i | 0 <= i < |p| - 1 ensures Names(ms, p[i], p[i + 1]) {
      assert i > 0 ==> p[i] == q[i - 1] && p[i + 1] == q[i];
    }
  }

  lemma ReachedIffNamed(ms: Manifests, x: string, name: string)
    requires x in ms
    ensures (exists d <- Reach(DepGraph(ms), Known(x)) :: d.name == name) <==> NamesInTheEnd(ms, x, name)
  {
    if d :| d in Reach(DepGraph(ms), Known(x)) && d.name == name {
      var w :| Chain(DepGraph(ms), w, Known(x), d);
      var p := ReachedAreNamed(ms, w, x, d);
    }
    if p :| NameChain(ms, p, x, name) {
      var d := NamesAreReached(ms, p, x, name);
    }
  }

  // ---------------------------------------------------------------- gathering

  /** What a search from `s` adds to the visited set and to the list. */
  ghost predicate Gathered(g: Graph<Node>, s: Node, upTo: nat, hash: set<Node>, deps: seq<Node>, hash': set<Node>, deps': seq<Node>)
    requires s in g && upTo <= |g[s]|
  {
    && hash <= hash' && deps <= deps'
    && NoDup(deps'[|deps|..]) && Elements(deps'[|deps|..]) == hash' - hash
    && hash' - hash <= Reach(g, s)
    && (forall j :: 0 <= j < upTo ==> g[s][j] in hash')
  }

  ghost predicate Complete(g: Graph<Node>, nodes: set<Node>, hash: set<Node>)
  {
    forall x <- nodes :: x in g && forall d <- g[x] :: d in hash
  }

  /** Where the list and the visited set agree, and the list has the dependencies of its members. */
  ghost predicate InStep(g: Graph<Node>, s: Node, hash: set<Node>, deps: seq<Node>)
  {
    && (forall x <- Reach(g, s) :: x in hash <==> x in deps)
    && (forall x <- deps :: x in g && forall d <- g[x] :: d in deps)
  }

  lemma GatheredGrows(g: Graph<Node>, s: Node, i: nat, direct: bool, hash: set<Node>, deps: seq<Node>, h: set<Node>, ds: seq<Node>,
                      h': set<Node>, ds': seq<Node>)
    requires Closed(g) && s in g && i < |g[s]| && Gathered(g, s, i, hash, deps, h, ds)
    requires Added(g, s, g[s][i], direct, h, ds, h', ds')
    requires direct ==> h - hash <= Elements(g[s])
    requires !direct ==> Complete(g, h - hash, h)
    ensures Gathered(g, s, i + 1, hash, deps, h', ds')
    ensures direct ==> h' - hash <= Elements(g[s])
    ensures !direct ==> Complete(g, h' - hash, h')
  {
    var added := ds'[|ds|..];
    assert ds' == ds + added && g[s][i] in Elements(g[s]);
    assert direct ==> h' - hash <= (h - hash) + {g[s][i]};
    var old', new' := ds[|deps|..], (ds + added)[|deps|..];
    assert new' == old' + added;
    forall a, b | 0 <= a < b < |new'| ensures new'[a] != new'[b] {
      if a < |old'| <= b {
        assert new'[a] in Elements(old') && new'[b] in Elements(added);
      }
    }
    forall x ensures x in Elements(new') <==> x in h' - hash {
      assert x in Elements(old') <==> x in h - hash;
      assert x in Elements(added) <==> x in h' - h;
    }
  }

  lemma InsertShrinks(u: set<Node>, v: set<Node>, hash: set<Node>, d: Node)
    requires v <= u && d in u && d !in hash
    ensures |v - (hash + {d})| + 1 <= |u - hash|
  {
    SubsetCardinality(v - (hash + {d}), u - hash - {d});
  }

  lemma {:induction false} SubsetCardinality<T>(a: set<T>, b: set<T>)
    requires a <= b
    ensures |a| <= |b|
  {
    if a != {} {
      var x :| x in a;
      SubsetCardinality(a - {x}, b - {x});
    }
  }

  /** One direct dependency of an acyclic search in post-order. */
  lemma PostStep(g: Graph<Node>, s: Node, i: nat, deps: seq<Node>, h: set<Node>, ds: seq<Node>, ds': seq<Node>)
    requires Closed(g) && s in g && i < |g[s]| && AcyclicFrom(g, s)
    requires InStep(g, s, h, ds) && ds == AppendNew(deps, PostOver(g, s, i))
    requires AcyclicFrom(g, g[s][i])
    requires if g[s][i] in h then ds' == ds else ds' == AppendNew(ds, PostOrder(g, g[s][i])) + [g[s][i]]
    ensures ds' == AppendNew(deps, PostOver(g, s, i + 1))
  {
    var d := g[s][i];
    AcyclicEdge(g, s, d);
    PostOrderIsTopological(g, d);
    var post := PostOrder(g, d);
    EdgeReaches(g, s, d);
    if d in h {
      assert d in ds;
      ReachIsLeast(g, d, Elements(ds));
      forall x | x in post + [d] ensures x in ds {
        assert x in post ==> x in Elements(post);
      }
      AppendNewNothing(ds, post + [d]);
    } else {
      AppendNewElements(ds, post);
      assert d !in post by { assert d !in Elements(post); }
      assert (post + [d])[..|post|] == post;
    }
    assert ds' == AppendNew(ds, post + [d]);
    AppendNewAssociates(deps, PostOver(g, s, i), post + [d]);
  }

  /** One direct dependency in pre-order: nothing when it has been visited, else itself and what the search from it lists. */
  ghost predicate PreVisited(g: Graph<Node>, d: Node, hash: set<Node>, deps: seq<Node>, deps': seq<Node>)
  {
    if d in hash then deps' == deps
    else deps + [d] <= deps' && InDepthFirst(g, d, hash + {d}, deps'[|deps| + 1..])
  }

  lemma PreStep(g: Graph<Node>, s: Node, i: nat, hash: set<Node>, deps: seq<Node>, h: set<Node>, ds: seq<Node>, ds': seq<Node>)
    requires s in g && i < |g[s]| && Gathered(g, s, i, hash, deps, h, ds) && Complete(g, h - hash, h)
    requires InDepthFirst(g, s, hash, ds[|deps|..]) && PreVisited(g, g[s][i], h, ds, ds')
    ensures deps <= ds' && InDepthFirst(g, s, hash, ds'[|deps|..])
  {
    hide InDepthFirst, NoDup;
    var d, list := g[s][i], ds[|deps|..];
    assert hash + Elements(list) == h;
    if d !in h {
      var sub := ds'[|ds| + 1..];
      assert ds' == ds + [d] + sub && ds'[|deps|..] == list + [d] + sub;
      forall x | x in list ensures Exhausted(g, x, hash + Elements(list)) {
        assert x in Elements(list);
      }
      InDepthFirstGrows(g, s, i, hash, list, d, sub);
    }
  }

  /** One direct dependency of a search that stops there. */
  lemma DirectStep(g: Graph<Node>, s: Node, i: nat, hash: set<Node>, deps: seq<Node>, h: set<Node>, ds: seq<Node>, ds': seq<Node>)
    requires s in g && i < |g[s]| && Gathered(g, s, i, hash, deps, h, ds)
    requires InLinkOrder(g[s], hash, ds[|deps|..]) && ds' == if g[s][i] in h then ds else ds + [g[s][i]]
    ensures deps <= ds' && InLinkOrder(g[s], hash, ds'[|deps|..])
  {
    hide InLinkOrder;
    var d, list := g[s][i], ds[|deps|..];
    assert hash + Elements(list) == h;
    if d !in h {
      assert ds'[|deps|..] == list + [d];
      InLinkOrderGrows(g[s], i, hash, list);
    }
  }

  /** Before the search from one unvisited dependency. */
  lemma InStepInside(g: Graph<Node>, s: Node, d: Node, h: set<Node>, ds: seq<Node>)
    requires Closed(g) && s in g && d in g[s] && AcyclicFrom(g, s) && InStep(g, s, h, ds) && d !in h
    ensures AcyclicFrom(g, d) && InStep(g, d, h + {d}, ds)
  {
    AcyclicEdge(g, s, d);
  }

  /** After it. */
  lemma InStepAfter(g: Graph<Node>, s: Node, d: Node, h: set<Node>, ds: seq<Node>, h': set<Node>, ds': seq<Node>)
    requires Closed(g) && s in g && d in g[s] && AcyclicFrom(g, s) && AcyclicFrom(g, d)
    requires InStep(g, s, h, ds) && Added(g, s, d, false, h, ds, h', ds')
    requires ds' == AppendNew(ds, PostOrder(g, d)) + [d]
    ensures InStep(g, s, h', ds')
  {
    PostOrderIsTopological(g, d);
    var post := PostOrder(g, d);
    AppendNewElements(ds, post);
    assert ds' == ds + ds'[|ds|..];
    forall x | x in Reach(g, s) ensures x in h' <==> x in ds' {
      assert x in ds' <==> x in ds || x in Elements(ds'[|ds|..]);
    }
    forall x | x in ds' ensures x in g && forall y <- g[x] :: y in ds' {
      if x in post {
        var k :| 0 <= k < |post| && post[k] == x;
        assert forall y <- g[x] :: y in post[..k];
      } else if x == d {
        forall y | y in g[d] ensures y in post {
          EdgeReaches(g, d, y);
          assert y in Elements(post);
        }
      }
    }
  }

  /** No cycle, and no chain longer than the depth that is left. */
  ghost predicate Fits(g: Graph<Node>, s: Node, depth: nat)
  {
    Closed(g) && s in g && AcyclicFrom(g, s) && depth + Height(g, s) <= MAX_DEPENDENCY_DEPTH
  }

  lemma FitsBelow(g: Graph<Node>, s: Node, depth: nat)
    ensures Fits(g, s, depth) ==> depth <= MAX_DEPENDENCY_DEPTH
  {
  }

  lemma FitsEdge(g: Graph<Node>, s: Node, i: nat, depth: nat)
    requires Closed(g) && s in g && i < |g[s]|
    ensures Fits(g, s, depth) ==> Fits(g, g[s][i], depth + 1)
  {
    if Fits(g, s, depth) {
      HeightOfEdge(g, s, |g[s]|, i);
    }
  }

  // ---------------------------------------------------------------- links between stackages

  /** `deps_computed_` and `deps_` of one stackage. */
  datatype Link = Link(computed: bool, deps: seq<Node>)
  type Links = map<string, Link>

  /** Complete links, leading to stackages that have been visited. */
  ghost predicate Linked(ms: Manifests, ls: Links, n: string)
    requires n in ms && n in ls
  {
    ls[n].deps == Parsed(ms, n) && Visited(ls, ls[n].deps)
  }

  ghost predicate Visited(ls: Links, deps: seq<Node>)
  {
    forall d <- deps :: d.Known? ==> d.name in ls && ls[d.name].computed
  }

  /** Stackages not visited are fresh; those visited are linked, except the ones in progress. */
  ghost predicate Consistent(ms: Manifests, ls: Links, active: set<string>)
  {
    && ls.Keys == ms.Keys
    && (forall n <- active :: n in ls && ls[n].computed)
    && (forall n <- ls :: !ls[n].computed ==> ls[n].deps == [])
    && (forall n <- ls :: ls[n].computed && n !in active ==> Linked(ms, ls, n))
  }

  /** Stackages visited before keep what they have, except that the links of `except` may grow. */
  ghost predicate Kept(ls: Links, ls': Links, except: set<string>)
  {
    && ls'.Keys == ls.Keys
    && forall n <- ls :: ls[n].computed ==> ls'[n].computed && (n !in except ==> ls'[n] == ls[n])
  }

  /** Stackages visited in between, other than `except`, have good manifests. */
  ghost predicate NewOnesGood(ms: Manifests, ls: Links, ls': Links, except: set<string>)
    requires ls.Keys == ls'.Keys == ms.Keys
  {
    forall n <- ls :: n !in except && ls'[n].computed && !ls[n].computed ==> Good(ms, n)
  }

  /** In the middle of the `depend` elements of a stackage. */
  ghost predicate Linking(ms: Manifests, ls: Links, name: string, entries: seq<Option<string>>, i: nat, active: set<string>)
    requires i <= |entries|
  {
    && name in ls && Consistent(ms, ls, active + {name})
    && ls[name].deps == ParsedPrefix(ms.Keys, name, entries, i) && Visited(ls, ls[name].deps)
  }

  lemma LinkingStarts(ms: Manifests, ls: Links, name: string, entries: seq<Option<string>>, active: set<string>)
    requires Consistent(ms, ls, active) && name in ls && !ls[name].computed
    ensures Linking(ms, ls[name := Link(true, [])], name, entries, 0, active)
  {
    var ls' := ls[name := Link(true, [])];
    forall n | n in ls' && ls'[n].computed && n !in active + {name} ensures Linked(ms, ls', n) {
      assert Linked(ms, ls, n);
    }
  }

  lemma LinkingEnds(ms: Manifests, ls: Links, name: string, entries: seq<Option<string>>, active: set<string>)
    requires Linking(ms, ls, name, entries, |entries|, active) && name in ms && ms[name] == Some(entries)
    requires forall n <- active :: n in ls && ls[n].computed
    ensures Consistent(ms, ls, active)
  {
    assert Linked(ms, ls, name);
  }

  /** A stackage whose manifest does not load stays without links. */
  lemma NoManifest(ms: Manifests, ls: Links, name: string, active: set<string>)
    requires Consistent(ms, ls, active) && name in ls && !ls[name].computed && ms[name].None?
    ensures Consistent(ms, ls[name := Link(true, [])], active)
  {
    LinkingStarts(ms, ls, name, [], active);
    assert Linked(ms, ls[name := Link(true, [])], name);
  }

  /** An element that adds nothing. */
  lemma LinkingSkips(ms: Manifests, ls: Links, name: string, entries: seq<Option<string>>, i: nat, active: set<string>)
    requires i < |entries| && Linking(ms, ls, name, entries, i, active)
    ensures Entry(ms.Keys, name, i, entries[i]) == [] ==> Linking(ms, ls, name, entries, i + 1, active)
    ensures Kept(ls, ls, {name}) && name in ls && ls[name].computed && NewOnesGood(ms, ls, ls, {})
  {
  }

  /** Extending the links of the stackage in progress. */
  lemma LinkPushed(ms: Manifests, ls: Links, name: string, entries: seq<Option<string>>, i: nat, active: set<string>, d: Node)
    requires i < |entries| && Linking(ms, ls, name, entries, i, active) && Entry(ms.Keys, name, i, entries[i]) == [d]
    ensures var ls' := ls[name := Link(ls[name].computed, ls[name].deps + [d])];
      Consistent(ms, ls', active + {name}) && Kept(ls, ls', {name})
      && (d.Missing? ==> Linking(ms, ls', name, entries, i + 1, active))
  {
    var ls' := ls[name := Link(ls[name].computed, ls[name].deps + [d])];
    assert ls[name].computed;
    forall n | n in ls' && ls'[n].computed && n !in active + {name} ensures Linked(ms, ls', n) {
      assert Linked(ms, ls, n);
    }
  }

  /** After the stackage behind a new link has been visited. */
  lemma LinkFollowed(ms: Manifests, start: Links, pushed: Links, ls: Links, name: string, entries: seq<Option<string>>, i: nat,
                     active: set<string>, d: string)
    requires i < |entries| && Linking(ms, start, name, entries, i, active) && Entry(ms.Keys, name, i, entries[i]) == [Known(d)]
    requires pushed == start[name := Link(start[name].computed, start[name].deps + [Known(d)])]
    requires Kept(pushed, ls, {}) && Consistent(ms, ls, active + {name}) && d in ls && ls[d].computed
    ensures Linking(ms, ls, name, entries, i + 1, active) && Kept(start, ls, {name})
  {
    assert ls[name] == pushed[name];
  }

  lemma SamePending(start: Links, pushed: Links, name: string)
    requires name in start && name in pushed && pushed == start[name := Link(start[name].computed, pushed[name].deps)]
    ensures Pending(pushed) == Pending(start)
  {
  }

  lemma NewOnesGoodFrom(ms: Manifests, start: Links, pushed: Links, ls: Links, name: string)
    requires start.Keys == pushed.Keys == ls.Keys == ms.Keys && name in start
    requires pushed == start[name := Link(start[name].computed, pushed[name].deps)]
    requires NewOnesGood(ms, pushed, ls, {})
    ensures NewOnesGood(ms, start, ls, {})
  {
  }

  lemma FreshIsEmpty(ms: Manifests, ls: Links, name: string, active: set<string>)
    requires Consistent(ms, ls, active) && name in ls && !ls[name].computed
    ensures ls[name := Link(true, ls[name].deps)] == ls[name := Link(true, [])]
    ensures Kept(ls, ls[name := Link(true, [])], {})
  {
  }

  lemma PendingShrinks(start: Links, ls: Links, name: string)
    requires Kept(start, ls, {}) && name in start && !start[name].computed && ls[name].computed
    ensures Pending(ls) < Pending(start)
  {
    assert name in Pending(start) && name !in Pending(ls);
  }

  lemma KeptAcross(start: Links, before: Links, ls: Links, name: string)
    requires Kept(start, before, {}) && Kept(before, ls, {name}) && name in start && !start[name].computed && before[name].computed
    ensures Kept(start, ls, {}) && ls[name].computed
  {
  }

  lemma NewOnesGoodAcross(ms: Manifests, start: Links, before: Links, ls: Links, name: string)
    requires start.Keys == before.Keys == ls.Keys == ms.Keys
    requires NewOnesGood(ms, start, before, {name}) && NewOnesGood(ms, before, ls, {})
    ensures NewOnesGood(ms, start, ls, {name})
  {
  }

  lemma ActiveKept(ms: Manifests, start: Links, ls: Links, active: set<string>)
    requires Consistent(ms, start, active) && Kept(start, ls, {})
    ensures forall n <- active :: n in ls && ls[n].computed
  {
  }

  ghost function Pending(ls: Links): set<string>
  {
    set n | n in ls && !ls[n].computed
  }

  // ---------------------------------------------------------------- the objects

  class Stackage {
    const name: string
    const manifest: Manifest
    var deps: seq<Node>
    var depsComputed: bool

    constructor (name: string, manifest: Manifest)
      ensures this.name == name && this.manifest == manifest && deps == [] && !depsComputed
    {
      this.name, this.manifest := name, manifest;
      deps, depsComputed := [], false;
    }
  }

  class Rosstackage {
    var stackages: map<string, Stackage>

    constructor (table: map<string, Stackage>)
      ensures stackages == table
    {
      stackages := table;
    }

    /** The table is keyed by name. */
    ghost predicate Valid()
      reads this
    {
      forall n <- stackages :: stackages[n].name == n
    }

    ghost function Table(): Manifests
      reads this
    {
      map n | n in stackages :: stackages[n].manifest
    }

    ghost function State(): Links
      reads this, stackages.Values
    {
      map n | n in stackages :: Link(stackages[n].depsComputed, stackages[n].deps)
    }

    method MarkComputed(name: string)
      requires Valid() && name in stackages
      modifies stackages[name]
      ensures State() == old(State())[name := Link(true, old(State())[name].deps)]
    {
      stackages[name].depsComputed := true;
    }

    method PushDep(name: string, d: Node)
      requires Valid() && name in stackages
      modifies stackages[name]
      ensures State() == old(State())[name := Link(old(State())[name].computed, old(State())[name].deps + [d])]
    {
      stackages[name].deps := stackages[name].deps + [d];
    }

    /**
     `computeDeps`: a run without errors leaves every stackage it visited linked. With
     errors ignored it never fails; otherwise it reports the first bad manifest it meets.
     */
    method ComputeDeps(name: string, ignoreErrors: bool, ghost active: set<string>) returns (ok: bool)
      requires Valid() && name in stackages && Consistent(Table(), State(), active)
      modifies stackages.Values
      ensures ignoreErrors ==> ok
      ensures ok ==> Consistent(Table(), State(), active) && Kept(old(State()), State(), {}) && State()[name].computed
      ensures ok && !ignoreErrors ==> NewOnesGood(Table(), old(State()), State(), {})
      ensures GoodFrom(Table(), name) ==> ok
      decreases Pending(State()), 1
    {
      hide Good, GoodFrom, GoodEntry, ParsedPrefix, Parsed, Consistent, Linking, Kept, NewOnesGood;
      ghost var ms, start := Table(), State();
      StateKeys();
      NothingVisited(ms, start, name);
      if stackages[name].depsComputed {
        return true;
      }
      MarkComputed(name);
      FreshIsEmpty(ms, start, name, active);
      match stackages[name].manifest
      case None =>
        NotGood(ms, name);
        NoManifest(ms, start, name, active);
        return ignoreErrors;
      case Some(entries) =>
        LinkingStarts(ms, start, name, entries, active);
        for i := 0 to |entries|
          invariant Linking(ms, State(), name, entries, i, active) && Kept(start, State(), {})
          invariant State()[name].computed && !start[name].computed
          invariant !ignoreErrors ==>
            NewOnesGood(ms, start, State(), {name}) && GoodUpTo(ms.Keys, name, entries, i)
          modifies stackages.Values
        {
          ghost var before := State();
          if GoodFrom(ms, name) {
            GoodFromEntry(ms, name, i);
          }
          PendingShrinks(start, before, name);
          ok := LinkEntry(name, entries, i, ignoreErrors, active);
          if !ok { return; }
          KeptAcross(start, before, State(), name);
          if !ignoreErrors {
            NewOnesGoodAcross(ms, start, before, State(), name);
            GoodOneMore(ms.Keys, name, entries, i);
          }
        }
        ActiveKept(ms, start, State(), active);
        LinkingEnds(ms, State(), name, entries, active);
        if !ignoreErrors {
          VisitedGood(ms, start, State(), name, entries);
        }
        ok := true;
    }

    /**
     What a visited stackage that is not in progress is linked to, read off its manifest: one
     link for every name in it but its own, to a placeholder exactly where nobody crawled the
     name; and in a manifest without errors link `i` is element `i`.
     */
    lemma LinksAreTheNames(name: string, active: set<string>)
      requires Valid() && name in stackages && Consistent(Table(), State(), active)
      requires stackages[name].depsComputed && name !in active
      ensures forall x :: Names(Table(), name, x) <==> exists d <- stackages[name].deps :: d.name == x
      ensures forall d <- stackages[name].deps :: d.Known? <==> d.name in stackages
      ensures Good(Table(), name) ==>
        && |stackages[name].deps| == |stackages[name].manifest.value|
        && forall i :: 0 <= i < |stackages[name].deps| ==> stackages[name].deps[i] == Known(stackages[name].manifest.value[i].value)
    {
      var ms := Table();
      assert Linked(ms, State(), name);
      assert stackages[name].deps == Parsed(ms, name);
      forall x ensures Names(ms, name, x) <==> exists d <- Parsed(ms, name) :: d.name == x {
        ParsedAreTheNames(ms, name, x);
      }
      ParsedAreTheNames(ms, name, name);
      if Good(ms, name) {
        GoodManifestInOrder(ms.Keys, name, ms[name].value, |ms[name].value|);
      }
    }

    /** One `depend` element. */
    method LinkEntry(name: string, entries: seq<Option<string>>, i: nat, ignoreErrors: bool, ghost active: set<string>) returns (ok: bool)
      requires Valid() && name in stackages && i < |entries| && Linking(Table(), State(), name, entries, i, active)
      modifies stackages.Values
      ensures ignoreErrors ==> ok
      ensures ok ==> Linking(Table(), State(), name, entries, i + 1, active) && Kept(old(State()), State(), {name})
      ensures ok && !ignoreErrors ==>
        NewOnesGood(Table(), old(State()), State(), {}) && GoodEntry(Table().Keys, name, entries[i])
      ensures GoodEntry(Table().Keys, name, entries[i]) && GoodFrom(Table(), entries[i].value) ==> ok
      decreases Pending(State()), 2
    {
      hide Linking, Consistent, ParsedPrefix, Good, GoodFrom;
      ghost var ms, start := Table(), State();
      StateKeys();
      LinkingSkips(ms, start, name, entries, i, active);
      match entries[i]
      case None =>
        return ignoreErrors;
      case Some(d) =>
        if d == name {
          return ignoreErrors;
        } else if d !in stackages {
          if ignoreErrors {
            LinkPushed(ms, start, name, entries, i, active, Missing(name, i, d));
            PushDep(name, Missing(name, i, d));
          }
          return ignoreErrors;
        } else {
          LinkPushed(ms, start, name, entries, i, active, Known(d));
          PushDep(name, Known(d));
          ghost var pushed := State();
          SamePending(start, pushed, name);
          ok := ComputeDeps(d, ignoreErrors, active + {name});
          if ok {
            LinkFollowed(ms, start, pushed, State(), name, entries, i, active, d);
            if !ignoreErrors {
              NewOnesGoodFrom(ms, start, pushed, State(), name);
            }
          }
        }
    }

    lemma StateKeys()
      ensures State().Keys == Table().Keys == stackages.Keys
    {
    }

    // -------------------------------------------------------------- gathering

    /** The links of a node in memory; a placeholder has none. */
    function LinksOf(d: Node): seq<Node>
      reads this, stackages.Values
    {
      if d.Known? && d.name in stackages then stackages[d.name].deps else []
    }

    /** A set of nodes, closed under links, whose links in memory are those of the graph. */
    ghost predicate Loaded(g: Graph<Node>, loaded: set<Node>)
      reads this, stackages.Values
    {
      forall d <- loaded :: d in g && LinksOf(d) == g[d] && forall x <- g[d] :: x in loaded
    }

    /**
     `gatherDepsFull` without indented output. On every graph, a run that returns has
     visited, once each, whatever it reached; the depth never exceeds the number of visited
     nodes; and on an acyclic graph the list it extends in post-order is the merged list.
     */
    method GatherDepsFull(s: Node, direct: bool, order: Order, depth: nat, hash: set<Node>, deps: seq<Node>,
                          ghost g: Graph<Node>, ghost loaded: set<Node>)
      returns (ok: bool, hash': set<Node>, deps': seq<Node>)
      requires Closed(g) && s in g && Loaded(g, loaded) && s in loaded
      requires depth <= |hash|
      ensures ok ==> Gathered(g, s, |g[s]|, hash, deps, hash', deps')
      ensures ok && !direct ==> Complete(g, hash' - hash, hash')
      ensures ok && direct ==> hash' - hash <= Elements(g[s])
      ensures depth + |Reach(g, s) - hash| <= MAX_DEPENDENCY_DEPTH ==> ok
      ensures direct && depth <= MAX_DEPENDENCY_DEPTH ==> ok
      ensures Fits(g, s, depth) ==> ok
      ensures ok && !direct && order == Postorder && AcyclicFrom(g, s) && InStep(g, s, hash, deps)
        ==> deps' == AppendNew(deps, PostOrder(g, s)) && InStep(g, s, hash', deps')
      ensures ok && !direct && order == Preorder ==> deps <= deps' && InDepthFirst(g, s, hash, deps'[|deps|..])
      ensures ok && direct ==> deps <= deps' && InLinkOrder(g[s], hash, deps'[|deps|..])
      decreases g.Keys - hash, 1
    {
      hide PostOrder, PostOver, AppendNew, AcyclicFrom, InStep, Reaches, Added, Complete, Fits, Gathered, NoDup;
      hide InDepthFirst, InLinkOrder, PreVisited;
      FitsBelow(g, s, depth);
      hash', deps' := hash, deps;
      NothingComplete(g, hash);
      NothingGathered(g, s, hash, deps);
      if depth > MAX_DEPENDENCY_DEPTH {
        return false, hash', deps';
      }
      var links := LinksOf(s);
      ghost var acyclic := !direct && order == Postorder && AcyclicFrom(g, s) && InStep(g, s, hash, deps);
      PostStarts(g, s, deps);
      for i := 0 to |links|
        invariant Gathered(g, s, i, hash, deps, hash', deps')
        invariant !direct ==> Complete(g, hash' - hash, hash')
        invariant direct ==> hash' - hash <= Elements(g[s])
        invariant acyclic ==> deps' == AppendNew(deps, PostOver(g, s, i)) && InStep(g, s, hash', deps')
        invariant deps <= deps'
        invariant !direct && order == Preorder ==> InDepthFirst(g, s, hash, deps'[|deps|..])
        invariant direct ==> InLinkOrder(g[s], hash, deps'[|deps|..])
      {
        ghost var h, ds := hash', deps';
        GatheredKeeps(g, s, i, hash, deps, h, ds);
        ok, hash', deps' := Visit(s, i, direct, order, depth, hash', deps', g, loaded);
        if !ok {
          return;
        }
        GatheredGrows(g, s, i, direct, hash, deps, h, ds, hash', deps');
        if acyclic {
          PostStep(g, s, i, deps, h, ds, deps');
        }
        if !direct && order == Preorder {
          PreStep(g, s, i, hash, deps, h, ds, deps');
        } else if direct {
          DirectStep(g, s, i, hash, deps, h, ds, deps');
        }
      }
      ok := true;
    }

    /** The nodes whose links are in memory once nothing is in progress. */
    ghost function Visitable(): set<Node>
      reads this, stackages.Values
    {
      set d | d in DepGraph(Table()) && (d.Known? ==> d.name in stackages && stackages[d.name].depsComputed)
    }

    lemma VisitableIsLoaded()
      requires Valid() && Consistent(Table(), State(), {})
      ensures Loaded(DepGraph(Table()), Visitable())
    {
      var ms, g := Table(), DepGraph(Table());
      DepGraphIsClosed(ms);
      forall d | d in Visitable() ensures LinksOf(d) == g[d] && forall x <- g[d] :: x in Visitable() {
        if d.Known? {
          assert Linked(ms, State(), d.name);
          assert State()[d.name].deps == LinksOf(d) == Parsed(ms, d.name);
          assert Visited(State(), g[d]);
        }
      }
    }

    /**
     `gatherDeps` after `computeDeps`. Indirectly it lists everything reachable exactly once,
     on any graph; it cannot exceed the maximum depth when at most that many nodes are
     reachable; on an acyclic graph its post-order is the merged list; on any graph its
     pre-order is the depth-first one; and directly the links keep their order.
     */
    method GatherDeps(name: string, direct: bool, order: Order) returns (ok: bool, deps: seq<Node>)
      requires Valid() && name in stackages && stackages[name].depsComputed && Consistent(Table(), State(), {})
      ensures var g, s := DepGraph(Table()), Known(name);
        Closed(g) && s in g
        && (ok ==> NoDup(deps) && Elements(deps) == if direct then Elements(g[s]) else Reach(g, s))
        && (direct || |Reach(g, s)| <= MAX_DEPENDENCY_DEPTH || Fits(g, s, 0) ==> ok)
        && (ok && !direct && order == Postorder && AcyclicFrom(g, s) ==> deps == PostOrder(g, s))
        && (ok && !direct && order == Preorder ==> PreOrdered(g, s, deps))
        && (ok && direct ==> InLinkOrder(g[s], {}, deps))
    {
      hide Gathered, Complete, NoDup, Elements, AcyclicFrom, InStep, PostOrder, AppendNew, Fits, InDepthFirst, InLinkOrder;
      hide PreOrdered;
      ghost var g, s := DepGraph(Table()), Known(name);
      DepGraphIsClosed(Table());
      VisitableIsLoaded();
      NothingInStep(g, s);
      var hash: set<Node>;
      assert Reach(g, s) - {} == Reach(g, s);
      ok, hash, deps := GatherDepsFull(Known(name), direct, order, 0, {}, [], g, Visitable());
      if ok {
        GatherEnds(g, s, direct, hash, deps);
        assert deps[0..] == deps;
        if !direct && order == Preorder {
          PreOrderEnds(g, s, hash, deps);
        }
        if !direct && order == Postorder && AcyclicFrom(g, s) {
          PostOrderIsTopological(g, s);
          AppendNewToEmpty(PostOrder(g, s));
        }
      }
    }

    /** `depsDetail`: reports failure for an unknown name, a bad manifest, or a chain that is too deep. */
    method Deps(name: string, direct: bool) returns (deps: Option<seq<Node>>)
      requires Valid() && Consistent(Table(), State(), {})
      modifies stackages.Values
      ensures name !in stackages ==> deps == None
      ensures deps.Some? ==> Consistent(Table(), State(), {}) && name in stackages
      ensures deps.Some? ==>
        var g, s := DepGraph(Table()), Known(name);
        s in g && NoDup(deps.value) && Elements(deps.value) == if direct then Elements(g[s]) else Reach(g, s)
      ensures (name in stackages && GoodFrom(Table(), name)
               && (|Reach(DepGraph(Table()), Known(name))| <= MAX_DEPENDENCY_DEPTH || Fits(DepGraph(Table()), Known(name), 0)))
              ==> deps.Some?
      ensures deps.Some? && !direct ==>
        var g, s := DepGraph(Table()), Known(name);
        Closed(g) && s in g && (AcyclicFrom(g, s) ==> deps.value == PostOrder(g, s))
      ensures deps.Some? && direct ==> InLinkOrder(DepGraph(Table())[Known(name)], {}, deps.value)
      ensures deps.Some? && old(forall n <- stackages :: !stackages[n].depsComputed) ==> GoodFrom(Table(), name)
    {
      hide GoodFrom, Good, Consistent, Reaches, NoDup, Elements, Fits, PostOrder, AcyclicFrom, InLinkOrder, PreOrdered;
      ghost var start := State();
      if name !in stackages {
        return None;
      }
      var ok := ComputeDeps(name, false, {});
      if !ok {
        return None;
      }
      if forall n <- start :: !start[n].computed {
        VisitedIsGood(Table(), State(), name);
      }
      var list;
      ok, list := GatherDeps(name, direct, Postorder);
      return if ok then Some(list) else None;
    }

    /** X depends on something called `name`. */
    ghost predicate DependsOnName(x: string, name: string, direct: bool)
      requires x in stackages
      reads this
    {
      var g, s := DepGraph(Table()), Known(x);
      exists d :: d in (if direct && s in g then Elements(g[s]) else Reach(g, s)) && d.name == name
    }

    /** The scan of one gathered list for a name. */
    method HasName(deps: seq<Node>, name: string) returns (found: bool)
      ensures found <==> exists d :: d in Elements(deps) && d.name == name
    {
      for i := 0 to |deps|
        invariant forall d <- deps[..i] :: d.name != name
      {
        if deps[i].name == name {
          assert deps[i] in Elements(deps);
          return true;
        }
      }
      assert deps[..|deps|] == deps;
      found := false;
    }

    /**
     `dependsOnDetail`: the inverse query. A run that succeeds reports, exactly once each, the
     stackages whose gathered dependencies include something called `name`, whether a crawled
     stackage or a name that exists only as a missing dependency.
     */
    method DependsOn(name: string, direct: bool) returns (result: Option<seq<string>>)
      requires Valid() && Consistent(Table(), State(), {})
      modifies stackages.Values
      ensures result.Some? ==> NoDup(result.value)
      ensures result.Some? ==> forall x :: x in result.value <==> x in stackages && DependsOnName(x, name, direct)
      ensures result.Some? ==> forall x :: x in result.value <==> NamedBy(Table(), x, name, direct)
      ensures direct ==> result.Some?
      ensures (forall x <- stackages :: |Reach(DepGraph(Table()), Known(x))| <= MAX_DEPENDENCY_DEPTH) ==> result.Some?
    {
      hide Consistent, DependsOnName, Reaches, PostOrder, NamedBy, PreOrdered, InLinkOrder;
      var todo := stackages.Keys;
      var found: seq<string> := [];
      ghost var hits := set x | x in stackages && DependsOnName(x, name, direct);
      while todo != {}
        invariant todo <= stackages.Keys && Consistent(Table(), State(), {})
        invariant NoDup(found) && Elements(found) == hits - todo
        decreases todo
        modifies stackages.Values
      {
        var x :| x in todo;
        var ok, has := DependsOnOne(x, name, direct);
        if !ok {
          return None;
        }
        if has {
          Found(found, x, hits, todo);
          found := found + [x];
        }
        todo := todo - {x};
      }
      assert forall x :: x in found <==> x in Elements(found);
      forall x ensures x in stackages && DependsOnName(x, name, direct) <==> NamedBy(Table(), x, name, direct) {
        DependsOnIsNaming(x, name, direct);
      }
      result := Some(found);
    }

    lemma DependsOnIsNaming(x: string, name: string, direct: bool)
      ensures x in stackages && DependsOnName(x, name, direct) <==> NamedBy(Table(), x, name, direct)
    {
      hide Reaches, Parsed;
      var ms := Table();
      NamingIsCrawled(ms, x, name, direct);
      if x in stackages {
        DepGraphIsClosed(ms);
        ParsedAreTheNames(ms, x, name);
        ReachedIffNamed(ms, x, name);
      }
    }

    /** The query for one stackage. */
    method DependsOnOne(x: string, name: string, direct: bool) returns (ok: bool, has: bool)
      requires Valid() && Consistent(Table(), State(), {}) && x in stackages
      modifies stackages.Values
      ensures Consistent(Table(), State(), {})
      ensures ok ==> (has <==> DependsOnName(x, name, direct))
      ensures direct || |Reach(DepGraph(Table()), Known(x))| <= MAX_DEPENDENCY_DEPTH ==> ok
    {
      hide Consistent, Reaches, Fits, PostOrder, AcyclicFrom, GoodFrom, NoDup, Closed, PreOrdered, InLinkOrder;
      ok := ComputeDeps(x, true, {});
      var deps;
      ok, deps := GatherDeps(x, direct, Postorder);
      has := false;
      if ok {
        has := HasName(deps, name);
      }
    }

    lemma Found(found: seq<string>, x: string, hits: set<string>, todo: set<string>)
      requires NoDup(found) && Elements(found) == hits - todo && x in todo && x in hits
      ensures NoDup(found + [x]) && Elements(found + [x]) == hits - (todo - {x})
    {
      assert forall y :: y in found <==> y in Elements(found);
      forall y ensures y in found + [x] <==> y in hits - (todo - {x}) {
      }
    }

    /** One link of `s`. */
    method Visit(s: Node, i: nat, direct: bool, order: Order, depth: nat, hash: set<Node>, deps: seq<Node>,
                 ghost g: Graph<Node>, ghost loaded: set<Node>)
      returns (ok: bool, hash': set<Node>, deps': seq<Node>)
      requires Closed(g) && s in g && i < |g[s]| && Loaded(g, loaded) && s in loaded
      requires depth <= |hash| && depth <= MAX_DEPENDENCY_DEPTH
      ensures ok ==> Added(g, s, g[s][i], direct, hash, deps, hash', deps')
      ensures depth + |Reach(g, s) - hash| <= MAX_DEPENDENCY_DEPTH ==> ok
      ensures direct ==> ok
      ensures Fits(g, s, depth) ==> ok
      ensures ok && !direct && order == Postorder && AcyclicFrom(g, s) && InStep(g, s, hash, deps)
        ==> AcyclicFrom(g, g[s][i]) && InStep(g, s, hash', deps')
            && deps' == (if g[s][i] in hash then deps else AppendNew(deps, PostOrder(g, g[s][i])) + [g[s][i]])
      ensures ok && direct ==> deps' == if g[s][i] in hash then deps else deps + [g[s][i]]
      ensures ok && !direct && order == Preorder ==> PreVisited(g, g[s][i], hash, deps, deps')
      decreases g.Keys - hash, 0
    {
      hide PostOrder, AppendNew, AcyclicFrom, InStep, Reaches, Complete, Added, Elements, NoDup, Fits, InDepthFirst;
      FitsEdge(g, s, i, depth);
      var d := LinksOf(s)[i];
      ReachOfEdge(g, s, d);
      hash', deps', ok := hash, deps, true;
      ghost var acyclic := !direct && order == Postorder && AcyclicFrom(g, s) && InStep(g, s, hash, deps);
      if acyclic {
        AcyclicEdge(g, s, d);
      }
      if d in hash {
        NothingAdded(g, s, d, direct, hash, deps);
      } else {
        hash' := hash' + {d};
        if order == Preorder {
          deps' := deps' + [d];
        }
        ghost var base := deps';
        if !direct {
          InsertShrinks(Reach(g, s), Reach(g, d), hash, d);
          if acyclic {
            InStepInside(g, s, d, hash, deps);
          }
          ok, hash', deps' := GatherDepsFull(d, direct, order, depth + 1, hash', deps', g, loaded);
          if !ok { return; }
        }
        NodeAdded(g, s, d, direct, order, hash, deps, base, hash', deps');
        if order == Postorder {
          deps' := deps' + [d];
        }
        if acyclic {
          InStepAfter(g, s, d, hash, deps, hash', deps');
        }
      }
    }
  }

  /** What visiting one dependency `d` of `s` adds. */
  ghost predicate Added(g: Graph<Node>, s: Node, d: Node, direct: bool, hash: set<Node>, deps: seq<Node>, hash': set<Node>, deps': seq<Node>)
  {
    && hash <= hash' && deps <= deps' && d in hash'
    && NoDup(deps'[|deps|..]) && Elements(deps'[|deps|..]) == hash' - hash && hash' - hash <= Reach(g, s)
    && (if direct then hash' - hash <= {d} else Complete(g, hash' - hash, hash'))
  }

  lemma NothingAdded(g: Graph<Node>, s: Node, d: Node, direct: bool, hash: set<Node>, deps: seq<Node>)
    requires d in hash
    ensures Added(g, s, d, direct, hash, deps, hash, deps)
  {
  }

  /** A new node, what the search from it added, and the node's own place in the list. */
  lemma NodeAdded(g: Graph<Node>, s: Node, d: Node, direct: bool, order: Order, hash: set<Node>, deps: seq<Node>,
                  base: seq<Node>, hash': set<Node>, deps': seq<Node>)
    requires Closed(g) && s in g && d in g[s] && d !in hash
    requires base == if order == Preorder then deps + [d] else deps
    requires if direct then hash' == hash + {d} && deps' == base
             else Gathered(g, d, |g[d]|, hash + {d}, base, hash', deps') && Complete(g, hash' - (hash + {d}), hash')
    ensures Added(g, s, d, direct, hash, deps, hash', if order == Postorder then deps' + [d] else deps')
  {
    ReachOfEdge(g, s, d);
    var added := deps'[|base|..];
    assert NoDup(added) && Elements(added) == hash' - (hash + {d});
    AddedOne(d, added, hash, hash');
    if order == Preorder {
      SuffixAfter(deps, d, deps');
    } else {
      SuffixThen(deps, deps', d);
    }
    if !direct {
      CompleteWith(g, d, hash, hash');
    }
  }

  /** A search that started with nothing visited. */
  lemma GatherEnds(g: Graph<Node>, s: Node, direct: bool, hash: set<Node>, deps: seq<Node>)
    requires Closed(g) && s in g && Gathered(g, s, |g[s]|, {}, [], hash, deps)
    requires if direct then hash - {} <= Elements(g[s]) else Complete(g, hash - {}, hash)
    ensures NoDup(deps) && Elements(deps) == if direct then Elements(g[s]) else Reach(g, s)
  {
    assert deps[0..] == deps && hash - {} == hash;
    assert Elements(g[s]) <= hash;
    if !direct {
      ReachIsLeast(g, s, hash);
    }
  }

  /** Depth first to the end: parents first, and behind each node at once everything reached around what is listed. */
  ghost predicate PreOrdered(g: Graph<Node>, s: Node, deps: seq<Node>)
    requires s in g
  {
    && InDepthFirst(g, s, {}, deps) && Finished(g, s, {}, deps)
    && (forall x <- deps :: x in g) && ParentsFirst(g, s, deps)
    && forall j :: 0 <= j < |deps| ==> BlockBehind(g, deps, j)
  }

  lemma PreOrderEnds(g: Graph<Node>, s: Node, hash: set<Node>, deps: seq<Node>)
    requires Closed(g) && s in g && Gathered(g, s, |g[s]|, {}, [], hash, deps) && Complete(g, hash - {}, hash)
    requires InDepthFirst(g, s, {}, deps)
    ensures PreOrdered(g, s, deps)
  {
    hide InDepthFirst, ParentsFirst, BlockBehind, NoDup, Reaches;
    assert deps[0..] == deps && hash - {} == hash == {} + Elements(deps);
    forall i | 0 <= i <= |deps| ensures Exhausted(g, At(s, deps, i), {} + Elements(deps)) {
      assert i > 0 ==> deps[i - 1] in Elements(deps);
    }
    forall x | x in deps ensures x in g {
      assert x in Elements(deps);
    }
    DepthFirstParents(g, s, deps);
    forall j | 0 <= j < |deps| ensures BlockBehind(g, deps, j) {
      DepthFirstBlocks(g, s, deps, j);
    }
  }

  lemma NothingInStep(g: Graph<Node>, s: Node)
    ensures InStep(g, s, {}, [])
  {
  }

  lemma NothingGathered(g: Graph<Node>, s: Node, hash: set<Node>, deps: seq<Node>)
    requires s in g
    ensures Gathered(g, s, 0, hash, deps, hash, deps)
    ensures InDepthFirst(g, s, hash, deps[|deps|..]) && InLinkOrder(g[s], hash, deps[|deps|..])
  {
  }

  lemma GatheredKeeps(g: Graph<Node>, s: Node, i: nat, hash: set<Node>, deps: seq<Node>, hash': set<Node>, deps': seq<Node>)
    requires s in g && i <= |g[s]| && Gathered(g, s, i, hash, deps, hash', deps')
    ensures hash <= hash'
    ensures |hash| <= |hash'| && |Reach(g, s) - hash'| <= |Reach(g, s) - hash|
  {
    SubsetCardinality(hash, hash');
    SubsetCardinality(Reach(g, s) - hash', Reach(g, s) - hash);
  }

  lemma NothingComplete(g: Graph<Node>, hash: set<Node>)
    ensures Complete(g, hash - hash, hash)
  {
  }

  lemma PostStarts(g: Graph<Node>, s: Node, deps: seq<Node>)
    requires Closed(g) && s in g
    ensures AcyclicFrom(g, s) ==>
      AppendNew(deps, PostOver(g, s, 0)) == deps && PostOrder(g, s) == PostOver(g, s, |g[s]|)
  {
  }

  lemma SuffixAfter(deps: seq<Node>, d: Node, deps': seq<Node>)
    requires deps + [d] <= deps'
    ensures deps <= deps' && deps'[|deps|..] == [d] + deps'[|deps| + 1..]
  {
    assert deps' == deps + [d] + deps'[|deps| + 1..];
  }

  lemma SuffixThen(deps: seq<Node>, deps': seq<Node>, d: Node)
    requires deps <= deps'
    ensures deps <= deps' + [d] && (deps' + [d])[|deps|..] == deps'[|deps|..] + [d]
  {
  }

  lemma CompleteWith(g: Graph<Node>, d: Node, hash: set<Node>, hash': set<Node>)
    requires d in g && (forall j :: 0 <= j < |g[d]| ==> g[d][j] in hash') && Complete(g, hash' - (hash + {d}), hash')
    ensures Complete(g, hash' - hash, hash')
  {
  }

  /** A node and what was added while searching from it. */
  lemma AddedOne(d: Node, added: seq<Node>, hash: set<Node>, hash': set<Node>)
    requires d !in hash && hash + {d} <= hash' && NoDup(added) && Elements(added) == hash' - (hash + {d})
    ensures NoDup([d] + added) && Elements([d] + added) == hash' - hash
    ensures NoDup(added + [d]) && Elements(added + [d]) == hash' - hash
  {
    assert forall x <- added :: x in Elements(added);
    forall x ensures x in [d] + added <==> x in hash' - hash {
      assert x in added <==> x in Elements(added);
    }
    forall x ensures x in added + [d] <==> x in hash' - hash {
      assert x in added <==> x in Elements(added);
    }
  }
}
