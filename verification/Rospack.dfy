/**
 The original dependency engine: every package memoises its direct dependencies, its
 dependencies and its descendants in lists that are merged by linear search.
 */
module Rospack {
  import opened Wrappers
  import opened Sequences
  import opened Graph
  import opened Preorder
  import opened Chains
  import Rp

  const MAX_DEPENDENCY_TREE_DEPTH: nat := 1000

  type Manifests = Rp.Manifests

  // ---------------------------------------------------------------- the graph the manifests describe

  /** Loads, names a package in every `depend` element, and never the package itself. */
  predicate Readable(ms: Manifests, n: string)
    requires n in ms
  {
    ms[n].Some? && forall i :: 0 <= i < |ms[n].value| ==> ReadableEntry(n, ms[n].value[i])
  }

  predicate ReadableEntry(self: string, entry: Option<string>)
  {
    entry.Some? && entry.value != self
  }

  /** The crawled packages among the first `k` elements. */
  function DirectPrefix(names: set<string>, entries: seq<Option<string>>, k: nat): seq<string>
    requires k <= |entries|
  {
    if k == 0 then [] else DirectPrefix(names, entries, k - 1) + Present(names, entries[k - 1])
  }

  function Present(names: set<string>, entry: Option<string>): seq<string>
  {
    if entry.Some? && entry.value in names then [entry.value] else []
  }

  function Direct(ms: Manifests, n: string): seq<string>
    requires n in ms
  {
    if Readable(ms, n) then DirectPrefix(ms.Keys, ms[n].value, |ms[n].value|) else []
  }

  function NameGraph(ms: Manifests): Graph<string>
  {
    map n | n in ms :: Direct(ms, n)
  }

  lemma {:induction false} DirectPrefixIsPresent(names: set<string>, entries: seq<Option<string>>, k: nat)
    requires k <= |entries|
    ensures forall d <- DirectPrefix(names, entries, k) :: d in names
  {
    if k > 0 {
      DirectPrefixIsPresent(names, entries, k - 1);
    }
  }

  lemma NameGraphIsClosed(ms: Manifests)
    ensures Closed(NameGraph(ms)) && NameGraph(ms).Keys == ms.Keys
  {
    forall n | n in ms ensures forall d <- Direct(ms, n) :: d in ms {
      if Readable(ms, n) {
        DirectPrefixIsPresent(ms.Keys, ms[n].value, |ms[n].value|);
      }
    }
  }

  /** Good manifests all the way down. */
  ghost predicate GoodFrom(ms: Manifests, n: string)
    requires n in ms
  {
    && Rp.Good(ms, n)
    && forall x <- Reach(NameGraph(ms), n) :: x in ms && Rp.Good(ms, x)
  }

  lemma GoodFromEdge(ms: Manifests, n: string, d: string)
    requires n in ms && GoodFrom(ms, n) && d in NameGraph(ms)[n]
    ensures d in ms && GoodFrom(ms, d)
  {
    NameGraphIsClosed(ms);
    ReachOfEdge(NameGraph(ms), n, d);
  }

  // ---------------------------------------------------------------- the memo

  /** The memo fields of one package. */
  datatype Memo = Memo(directDone: bool, direct: seq<string>, depsDone: bool, deps: seq<string>,
                       descendantsDone: bool, descendants: seq<string>)
  type Memory = map<string, Memo>

  /** Direct dependencies, once computed, are those of the manifest; otherwise the list is empty, unless errors left a part of it. */
  predicate DirectOk(ms: Manifests, m: Memory)
  {
    && m.Keys == ms.Keys
    && forall n <- m :: DirectOkFor(ms, n, m[n])
  }

  predicate DirectOkFor(ms: Manifests, n: string, memo: Memo)
    requires n in ms
  {
    if memo.directDone then Readable(ms, n) && memo.direct == Direct(ms, n) else Readable(ms, n) ==> memo.direct == []
  }

  ghost function InOrder(order: Order, g: Graph<string>, n: string): seq<string>
    requires Closed(g) && n in g && AcyclicFrom(g, n)
  {
    match order
    case Preorder => PreOrder(g, n)
    case Postorder => PostOrder(g, n)
  }

  ghost function InOrderOver(order: Order, g: Graph<string>, n: string, k: nat): seq<string>
    requires Closed(g) && n in g && AcyclicFrom(g, n) && k <= |g[n]|
  {
    match order
    case Preorder => PreOver(g, n, k)
    case Postorder => PostOver(g, n, k)
  }

  /** What merging one direct dependency `x` and its dependencies `d` makes of a list. */
  function Merged(order: Order, list: seq<string>, x: string, d: seq<string>): seq<string>
  {
    match order
    case Preorder => BumpAll(list + [x], d)
    case Postorder => AppendNew(list, d + [x])
  }

  /**
   Memoised dependencies are right, and their packages' dependencies are memoised too. Lists
   not memoised are empty, except those of packages whose computation is under way.
   */
  ghost predicate DepsOk(g: Graph<string>, m: Memory, order: Order, active: set<string>)
  {
    && Closed(g) && m.Keys == g.Keys
    && forall n <- m :: DepsOkFor(g, m, order, active, n)
  }

  ghost predicate DepsOkFor(g: Graph<string>, m: Memory, order: Order, active: set<string>, n: string)
    requires Closed(g) && m.Keys == g.Keys && n in m
  {
    if m[n].depsDone then
      AcyclicFrom(g, n) && m[n].deps == InOrder(order, g, n) && m[n].directDone && forall d <- g[n] :: d in m && m[d].depsDone
    else
      n !in active ==> m[n].deps == []
  }

  /** What a computation for `n` may do to the memo. */
  ghost predicate Advanced(ms: Manifests, m: Memory, m': Memory, touched: set<string>)
  {
    && m.Keys == m'.Keys == ms.Keys
    && (forall x <- m :: x !in touched ==> m'[x] == m[x])
    && (forall x <- m :: m[x].depsDone ==> m'[x].depsDone)
    && (forall x <- m :: m'[x].directDone && !m[x].directDone ==> Rp.Good(ms, x))
  }

  lemma AdvancedAcross(ms: Manifests, m0: Memory, m1: Memory, m2: Memory, touched: set<string>, more: set<string>)
    requires Advanced(ms, m0, m1, touched) && Advanced(ms, m1, m2, more) && more <= touched
    ensures Advanced(ms, m0, m2, touched)
  {
  }

  ghost predicate Underway(g: Graph<string>, active: set<string>, n: string)
  {
    forall a <- active :: Reaches(g, a, n)
  }

  /** Packages under way are out of reach of an acyclic computation they lead to. */
  lemma UnderwayApart(g: Graph<string>, active: set<string>, n: string)
    requires Closed(g) && n in g && Underway(g, active, n) && AcyclicFrom(g, n)
    ensures forall a <- active :: a != n && a !in Reach(g, n)
  {
    forall a | a in active ensures a != n && a !in Reach(g, n) {
      if a in Reach(g, n) {
        ReachesTransitive(g, a, n, a);
      }
    }
  }

  lemma UnderwayEdge(g: Graph<string>, active: set<string>, n: string, d: string)
    requires Closed(g) && n in g && d in g[n] && Underway(g, active, n)
    ensures Underway(g, active + {n}, d)
  {
    EdgeReaches(g, n, d);
    forall a | a in active ensures Reaches(g, a, d) {
      ReachesTransitive(g, a, n, d);
    }
  }

  /** A fresh memo, once the dependencies of `n` have been computed: its manifests are good all the way down. */
  lemma ComputedIsGood(ms: Manifests, m: Memory, m': Memory, order: Order, n: string, touched: set<string>)
    requires DepsOk(NameGraph(ms), m', order, {}) && n in m' && m'[n].depsDone && Advanced(ms, m, m', touched)
    requires forall x <- m :: !m[x].directDone
    ensures GoodFrom(ms, n)
  {
    var g := NameGraph(ms);
    var s := set x | x in m' && m'[x].depsDone;
    forall x | x in s ensures x in g && forall d <- g[x] :: d in s {
      assert DepsOkFor(g, m', order, {}, x);
    }
    ReachIsLeast(g, n, s);
    forall x | x in s ensures Rp.Good(ms, x) {
      assert DepsOkFor(g, m', order, {}, x);
    }
  }

  // ---------------------------------------------------------------- one computation of dependencies

  /** In the middle of the direct dependencies of `name`. */
  ghost predicate Computing(ms: Manifests, order: Order, m0: Memory, m: Memory, name: string, i: nat, active: set<string>)
  {
    var g := NameGraph(ms);
    && DirectOk(ms, m) && DepsOk(g, m, order, active + {name})
    && name in g && i <= |g[name]| && Advanced(ms, m0, m, Reach(g, name) + {name})
    && m[name].directDone && !m[name].depsDone
    && (forall j :: 0 <= j < i ==> Computed(g, m, g[name][j]))
    && (AcyclicFrom(g, name) ==> m[name].deps == InOrderOver(order, g, name, i))
  }

  ghost predicate Computed(g: Graph<string>, m: Memory, d: string)
  {
    d in m && m[d].depsDone && AcyclicFrom(g, d)
  }

  lemma ComputingStarts(ms: Manifests, order: Order, m0: Memory, m: Memory, name: string, active: set<string>)
    requires DepsOk(NameGraph(ms), m0, order, active) && name in m0 && !m0[name].depsDone && Underway(NameGraph(ms), active, name)
    requires DirectOk(ms, m) && name in m && m[name].directDone && (m0[name].directDone || (Readable(ms, name) && Rp.Good(ms, name)))
    requires m == SetDirectLike(m0, name, m[name])
    ensures Computing(ms, order, m0, m, name, 0, active)
  {
    var g := NameGraph(ms);
    forall n | n in m ensures DepsOkFor(g, m, order, active + {name}, n) {
      assert DepsOkFor(g, m0, order, active, n);
    }
    assert DepsOkFor(g, m0, order, active, name);
    if AcyclicFrom(g, name) {
      UnderwayApart(g, active, name);
    }
  }

  /** The memo after one direct dependency has been computed and before it is merged. */
  ghost predicate Returned(ms: Manifests, order: Order, m: Memory, m': Memory, d: string, active: set<string>)
  {
    var g := NameGraph(ms);
    && DirectOk(ms, m') && DepsOk(g, m', order, active) && Computed(g, m', d)
    && Advanced(ms, m, m', Reach(g, d) + {d})
  }

  /** No error among the first `i` elements. */
  predicate ReadUpTo(ms: Manifests, name: string, entries: seq<Option<string>>, missingAsWarning: bool, i: nat)
    requires i <= |entries|
  {
    forall j :: 0 <= j < i ==> ReadableEntry(name, entries[j]) && (missingAsWarning || Rp.GoodEntry(ms.Keys, name, entries[j]))
  }

  lemma EntryRead(ms: Manifests, name: string, entries: seq<Option<string>>, missingAsWarning: bool, i: nat)
    requires i < |entries| && ReadUpTo(ms, name, entries, missingAsWarning, i) && name in ms && ms[name] == Some(entries)
    ensures entries[i].None? || entries[i].value == name ==> !Readable(ms, name)
    ensures entries[i].Some? && entries[i].value !in ms ==> !Rp.Good(ms, name)
    ensures ReadUpTo(ms, name, entries, missingAsWarning, i + 1) <==>
      entries[i].Some? && entries[i].value != name && (missingAsWarning || entries[i].value in ms)
  {
    assert ReadUpTo(ms, name, entries, missingAsWarning, i + 1) ==> ReadableEntry(name, entries[i]);
  }

  function SetDirect(m: Memory, name: string, list: seq<string>): Memory
    requires name in m
  {
    m[name := m[name].(direct := list)]
  }

  function SetDirectDone(m: Memory, name: string): Memory
    requires name in m
  {
    m[name := m[name].(directDone := true)]
  }

  /** The direct dependencies of one package are those of `memo`. */
  function SetDirectLike(m: Memory, name: string, memo: Memo): Memory
    requires name in m
  {
    m[name := m[name].(directDone := memo.directDone, direct := memo.direct)]
  }

  lemma DirectOkAt(ms: Manifests, m: Memory, name: string)
    requires DirectOk(ms, m) && name in m
    ensures name in ms && DirectOkFor(ms, name, m[name])
    ensures m[name].directDone ==> m[name].direct == NameGraph(ms)[name]
    ensures m == SetDirectLike(m, name, m[name])
  {
    assert DirectOkFor(ms, name, m[name]);
  }

  /** In the middle of the elements of a manifest: what was in the list before stays in front. */
  ghost predicate Parsing(ms: Manifests, m0: Memory, m: Memory, name: string, entries: seq<Option<string>>, i: nat)
  {
    && name in ms && ms[name] == Some(entries) && DirectOk(ms, m0) && name in m0 && name in m && i <= |entries|
    && !m0[name].directDone
    && m == SetDirect(m0, name, m0[name].direct + DirectPrefix(ms.Keys, entries, i))
  }

  lemma NothingPushed(ms: Manifests, m: Memory, name: string, entries: seq<Option<string>>)
    requires DirectOk(ms, m) && name in m && name in ms && ms[name] == Some(entries) && !m[name].directDone
    ensures Parsing(ms, m, m, name, entries, 0)
  {
    assert m[name].direct + [] == m[name].direct;
  }

  lemma SetDirectTwice(m: Memory, name: string, a: seq<string>, b: seq<string>)
    requires name in m
    ensures SetDirect(SetDirect(m, name, a), name, b) == SetDirect(m, name, b)
    ensures SetDirect(m, name, a) == SetDirectLike(m, name, SetDirect(m, name, a)[name])
  {
  }

  lemma SetDepsTwice(m: Memory, name: string, a: seq<string>, b: seq<string>)
    requires name in m
    ensures SetDeps(SetDeps(m, name, a), name, b) == SetDeps(m, name, b)
  {
  }

  lemma SetDepsSame(m: Memory, name: string)
    requires name in m
    ensures SetDeps(m, name, m[name].deps) == m
  {
  }

  lemma ParsingFrame(ms: Manifests, m0: Memory, m: Memory, name: string, entries: seq<Option<string>>, i: nat)
    requires Parsing(ms, m0, m, name, entries, i)
    ensures name in m0 && name in m && m == SetDirectLike(m0, name, m[name])
  {
    SetDirectTwice(m0, name, m[name].direct, []);
  }

  /** A manifest with errors may leave a part of the list behind. */
  lemma ParsingFailed(ms: Manifests, m0: Memory, m: Memory, name: string, entries: seq<Option<string>>, i: nat)
    requires Parsing(ms, m0, m, name, entries, i) && !Readable(ms, name)
    ensures DirectOk(ms, m)
  {
    hide Readable;
    forall n | n in m ensures DirectOkFor(ms, n, m[n]) {
      assert DirectOkFor(ms, n, m0[n]);
    }
  }

  lemma Pushed(ms: Manifests, m0: Memory, m: Memory, name: string, entries: seq<Option<string>>, i: nat)
    requires Parsing(ms, m0, m, name, entries, i) && i < |entries| && entries[i].Some?
    ensures entries[i].value in ms ==>
      Parsing(ms, m0, SetDirect(m, name, m[name].direct + [entries[i].value]), name, entries, i + 1)
    ensures entries[i].value !in ms ==> Parsing(ms, m0, m, name, entries, i + 1)
  {
    var prefix, next := DirectPrefix(ms.Keys, entries, i), DirectPrefix(ms.Keys, entries, i + 1);
    assert next == prefix + Present(ms.Keys, entries[i]);
    var was := m0[name].direct;
    assert m[name].direct == was + prefix;
    assert entries[i].value !in ms ==> next == prefix;
    hide DirectPrefix, DirectOk;
    if entries[i].value in ms {
      assert was + prefix + [entries[i].value] == was + next;
      SetDirectTwice(m0, name, was + prefix, was + next);
      hide SetDirect;
      assert SetDirect(m, name, m[name].direct + [entries[i].value]) == SetDirect(m0, name, was + next);
    }
  }

  lemma ParsedAll(ms: Manifests, m0: Memory, m: Memory, name: string, entries: seq<Option<string>>)
    requires Parsing(ms, m0, m, name, entries, |entries|) && Readable(ms, name)
    ensures m[name].direct == NameGraph(ms)[name] && DirectOk(ms, SetDirectDone(m, name))
    ensures SetDirectDone(m, name) == SetDirectLike(m0, name, SetDirectDone(m, name)[name])
    ensures SetDirectDone(m, name)[name].directDone && SetDirectDone(m, name)[name].direct == m[name].direct
  {
    hide DirectOk, DirectPrefix, Readable;
    DirectOkAt(ms, m0, name);
    assert [] + DirectPrefix(ms.Keys, entries, |entries|) == Direct(ms, name);
    ParsedAllOk(ms, m0, SetDirectDone(m, name), name);
  }

  lemma ParsedAllOk(ms: Manifests, m0: Memory, m: Memory, name: string)
    requires DirectOk(ms, m0) && name in m0 && name in m && m == SetDirectLike(m0, name, m[name])
    requires m[name].directDone && Readable(ms, name) && m[name].direct == Direct(ms, name)
    ensures DirectOk(ms, m)
  {
    hide Direct, Readable;
    forall n | n in m ensures DirectOkFor(ms, n, m[n]) {
      assert DirectOkFor(ms, n, m0[n]);
    }
  }

  function SetDeps(m: Memory, name: string, list: seq<string>): Memory
    requires name in m
  {
    m[name := m[name].(deps := list)]
  }

  function SetDone(m: Memory, name: string): Memory
    requires name in m
  {
    m[name := m[name].(depsDone := true)]
  }

  lemma SetDepsKeeps(ms: Manifests, order: Order, m: Memory, name: string, list: seq<string>, active: set<string>)
    requires DirectOk(ms, m) && DepsOk(NameGraph(ms), m, order, active + {name}) && name in m && !m[name].depsDone
    ensures DirectOk(ms, SetDeps(m, name, list)) && DepsOk(NameGraph(ms), SetDeps(m, name, list), order, active + {name})
  {
    var g, m' := NameGraph(ms), SetDeps(m, name, list);
    assert DirectOkFor(ms, name, m[name]);
    forall n | n in m' ensures DepsOkFor(g, m', order, active + {name}, n) {
      assert DepsOkFor(g, m, order, active + {name}, n);
    }
  }

  lemma SetDepsAdvances(ms: Manifests, m0: Memory, m: Memory, name: string, list: seq<string>, touched: set<string>)
    requires Advanced(ms, m0, m, touched) && name in m && name in touched
    ensures Advanced(ms, m0, SetDeps(m, name, list), touched)
    ensures Advanced(ms, m0, SetDone(m, name), touched)
  {
  }

  lemma ComputedStays(ms: Manifests, m: Memory, m': Memory, name: string, list: seq<string>, touched: set<string>, d: string)
    requires Advanced(ms, m, m', touched) && name in m'
    ensures Computed(NameGraph(ms), m, d) || Computed(NameGraph(ms), m', d) ==> Computed(NameGraph(ms), SetDeps(m', name, list), d)
  {
  }

  /** A package under way is out of reach of a dependency that has been computed. */
  lemma ReturnedApart(ms: Manifests, order: Order, m: Memory, m': Memory, name: string, i: nat, active: set<string>)
    requires name in ms && name in m && i < |NameGraph(ms)[name]| && Underway(NameGraph(ms), active, name)
    requires Returned(ms, order, m, m', NameGraph(ms)[name][i], active + {name})
    ensures m'.Keys == m.Keys && m'[name] == m[name]
    ensures Advanced(ms, m, m', Reach(NameGraph(ms), name) + {name})
  {
    NameGraphIsClosed(ms);
    var g := NameGraph(ms);
    var d := g[name][i];
    UnderwayEdge(g, active, name, d);
    UnderwayApart(g, active + {name}, d);
    ReachOfEdge(g, name, d);
  }

  lemma ComputingMerges(ms: Manifests, order: Order, m0: Memory, m: Memory, m': Memory, name: string, i: nat, active: set<string>)
    requires Computing(ms, order, m0, m, name, i, active) && Underway(NameGraph(ms), active, name)
    requires i < |NameGraph(ms)[name]| && Returned(ms, order, m, m', NameGraph(ms)[name][i], active + {name})
    ensures Closed(NameGraph(ms)) && name in NameGraph(ms) && i < |NameGraph(ms)[name]| && name in m'
    ensures NameGraph(ms)[name][i] in NameGraph(ms) && AcyclicFrom(NameGraph(ms), NameGraph(ms)[name][i])
    ensures var d := NameGraph(ms)[name][i];
      Computing(ms, order, m0, SetDeps(m', name, Merged(order, m'[name].deps, d, InOrder(order, NameGraph(ms), d))), name, i + 1, active)
  {
    NameGraphIsClosed(ms);
    var g := NameGraph(ms);
    var d := g[name][i];
    ReturnedApart(ms, order, m, m', name, i, active);
    var list := Merged(order, m'[name].deps, d, InOrder(order, g, d));
    var touched, after := Reach(g, name) + {name}, SetDeps(m', name, list);
    hide DirectOk, DepsOk, Advanced, Reach, Merged, InOrder, InOrderOver, NameGraph, AcyclicFrom, Closed, Computed, Underway;
    SetDepsKeeps(ms, order, m', name, list, active);
    AdvancedAcross(ms, m0, m, m', touched, touched);
    SetDepsAdvances(ms, m0, m', name, list, touched);
    ComputedSoFar(ms, m, m', name, list, touched, i);
    if AcyclicFrom(g, name) {
      MergedIsNext(order, g, name, i);
    }
  }

  lemma ComputedSoFar(ms: Manifests, m: Memory, m': Memory, name: string, list: seq<string>, touched: set<string>, i: nat)
    requires Advanced(ms, m, m', touched) && name in ms && name in m' && i < |NameGraph(ms)[name]|
    requires forall j :: 0 <= j < i ==> Computed(NameGraph(ms), m, NameGraph(ms)[name][j])
    requires Computed(NameGraph(ms), m', NameGraph(ms)[name][i])
    ensures forall j :: 0 <= j < i + 1 ==> Computed(NameGraph(ms), SetDeps(m', name, list), NameGraph(ms)[name][j])
  {
    hide Computed, Advanced, SetDeps;
    forall j | 0 <= j < i + 1 ensures Computed(NameGraph(ms), SetDeps(m', name, list), NameGraph(ms)[name][j]) {
      ComputedStays(ms, m, m', name, list, touched, NameGraph(ms)[name][j]);
    }
  }

  lemma MergedIsNext(order: Order, g: Graph<string>, name: string, i: nat)
    requires Closed(g) && name in g && AcyclicFrom(g, name) && i < |g[name]| && AcyclicFrom(g, g[name][i])
    ensures Merged(order, InOrderOver(order, g, name, i), g[name][i], InOrder(order, g, g[name][i])) == InOrderOver(order, g, name, i + 1)
  {
  }

  lemma SetDoneKeeps(ms: Manifests, order: Order, m: Memory, name: string, active: set<string>)
    requires DirectOk(ms, m) && DepsOk(NameGraph(ms), m, order, active + {name}) && name in m && m[name].directDone
    requires AcyclicFrom(NameGraph(ms), name) && m[name].deps == InOrder(order, NameGraph(ms), name)
    requires forall d <- NameGraph(ms)[name] :: d in m && m[d].depsDone
    ensures DirectOk(ms, SetDone(m, name)) && DepsOk(NameGraph(ms), SetDone(m, name), order, active)
  {
    var g, m' := NameGraph(ms), SetDone(m, name);
    assert DirectOkFor(ms, name, m[name]);
    forall n | n in m' ensures DepsOkFor(g, m', order, active, n) {
      assert DepsOkFor(g, m, order, active + {name}, n);
    }
  }

  lemma AllIsInOrder(order: Order, g: Graph<string>, n: string)
    requires Closed(g) && n in g && AcyclicFrom(g, n)
    ensures InOrderOver(order, g, n, |g[n]|) == InOrder(order, g, n)
  {
  }

  lemma ComputingEnds(ms: Manifests, order: Order, m0: Memory, m: Memory, name: string, active: set<string>)
    requires name in NameGraph(ms) && name in m && Computing(ms, order, m0, m, name, |NameGraph(ms)[name]|, active)
    ensures Returned(ms, order, m0, SetDone(m, name), name, active)
    ensures Closed(NameGraph(ms)) && AcyclicFrom(NameGraph(ms), name) && m[name].deps == InOrder(order, NameGraph(ms), name)
  {
    NameGraphIsClosed(ms);
    var g := NameGraph(ms);
    forall d | d in g[name] ensures Computed(g, m, d) {
      var j :| 0 <= j < |g[name]| && g[name][j] == d;
    }
    AcyclicFromDeps(g, name);
    AllIsInOrder(order, g, name);
    hide DirectOk, DepsOk, Advanced, Reach, InOrder, InOrderOver, NameGraph, AcyclicFrom;
    SetDoneKeeps(ms, order, m, name, active);
    SetDepsAdvances(ms, m0, m, name, m[name].deps, Reach(g, name) + {name});
  }

  lemma Memoised(ms: Manifests, order: Order, m: Memory, name: string, active: set<string>)
    requires DirectOk(ms, m) && DepsOk(NameGraph(ms), m, order, active) && name in m && m[name].depsDone
    ensures Closed(NameGraph(ms)) && name in NameGraph(ms) && AcyclicFrom(NameGraph(ms), name)
    ensures Returned(ms, order, m, m, name, active) && m[name].deps == InOrder(order, NameGraph(ms), name)
  {
    assert DepsOkFor(NameGraph(ms), m, order, active, name);
  }

  lemma {:induction false} FirstRemoved(before: seq<string>, x: string, after: seq<string>)
    requires x !in before
    ensures RemoveFirst(before + [x] + after, x) == before + after
  {
    var s := before + [x] + after;
    if before == [] {
      assert s[1..] == after;
    } else {
      assert s[0] == before[0] && s[1..] == before[1..] + [x] + after;
      FirstRemoved(before[1..], x, after);
      assert before + after == [before[0]] + (before[1..] + after);
    }
  }

  lemma EraseIsRemoveFirst(s: seq<string>, k: nat, x: string)
    requires k < |s| && s[k] == x && x !in s[..k]
    ensures s[..k] + s[k + 1..] == RemoveFirst(s, x)
  {
    FirstRemoved(s[..k], x, s[k + 1..]);
    assert s == s[..k] + [x] + s[k + 1..];
  }

  /** The list after the first `j` dependencies of `x` have been merged. */
  function MergedUpTo(order: Order, list: seq<string>, x: string, d: seq<string>, j: nat): seq<string>
    requires j <= |d|
  {
    match order
    case Preorder => BumpAll(list + [x], d[..j])
    case Postorder => AppendNew(list, d[..j])
  }

  lemma MergeStarts(list: seq<string>, x: string, d: seq<string>)
    ensures MergedUpTo(Preorder, list, x, d, 0) == list + [x] && MergedUpTo(Postorder, list, x, d, 0) == list
  {
  }

  function MergedOne(order: Order, list: seq<string>, y: string): seq<string>
  {
    if y !in list then list + [y] else if order == Preorder then Bump(list, y) else list
  }

  /** What the linear search found decides between bumping, pushing and leaving the list alone. */
  lemma FoundMerged(order: Order, list: seq<string>, y: string, k: Option<nat>)
    requires k.None? <==> y !in list
    requires k.Some? ==> k.value < |list| && list[k.value] == y && y !in list[..k.value]
    ensures MergedOne(order, list, y)
      == if k.None? then list + [y] else if order == Preorder then list[..k.value] + list[k.value + 1..] + [y] else list
  {
    if k.Some? && order == Preorder {
      EraseIsRemoveFirst(list, k.value, y);
    }
  }

  lemma MergeStep(order: Order, list: seq<string>, x: string, d: seq<string>, j: nat)
    requires j < |d|
    ensures MergedUpTo(order, list, x, d, j + 1) == MergedOne(order, MergedUpTo(order, list, x, d, j), d[j])
  {
    assert d[..j + 1][..j] == d[..j];
  }

  lemma MergeEnds(order: Order, list: seq<string>, x: string, d: seq<string>)
    ensures var r := MergedUpTo(order, list, x, d, |d|);
      Merged(order, list, x, d) == if order == Postorder then MergedOne(order, r, x) else r
  {
    assert d[..|d|] == d;
    assert (d + [x])[..|d|] == d;
  }

  // ---------------------------------------------------------------- the objects

  class Package {
    const name: string
    const manifest: Rp.Manifest
    var directDepsCalculated: bool
    var directDeps: seq<string>
    var depsCalculated: bool
    var deps: seq<string>
    var descendantsCalculated: bool
    var descendants: seq<string>

    constructor (name: string, manifest: Rp.Manifest)
      ensures this.name == name && this.manifest == manifest
      ensures !directDepsCalculated && !depsCalculated && !descendantsCalculated
      ensures directDeps == deps == descendants == []
    {
      this.name, this.manifest := name, manifest;
      directDepsCalculated, depsCalculated, descendantsCalculated := false, false, false;
      directDeps, deps, descendants := [], [], [];
    }
  }

  class Rospack {
    /** The crawled packages in crawl order, and each under its name. */
    var order: seq<string>
    var pkgs: map<string, Package>

    constructor (order: seq<string>, pkgs: map<string, Package>)
      ensures this.order == order && this.pkgs == pkgs
    {
      this.order, this.pkgs := order, pkgs;
    }

    ghost predicate Valid()
      reads this
    {
      && (forall n <- pkgs :: pkgs[n].name == n)
      && (forall p <- order :: p in pkgs) && Elements(order) == pkgs.Keys
    }

    ghost function Table(): Manifests
      reads this
    {
      map n | n in pkgs :: pkgs[n].manifest
    }

    ghost function State(): Memory
      reads this, pkgs.Values
    {
      map n | n in pkgs ::
        Memo(pkgs[n].directDepsCalculated, pkgs[n].directDeps, pkgs[n].depsCalculated, pkgs[n].deps,
             pkgs[n].descendantsCalculated, pkgs[n].descendants)
    }

    lemma StateAt(name: string)
      requires name in pkgs
      ensures State().Keys == Table().Keys == NameGraph(Table()).Keys == pkgs.Keys
      ensures Table()[name] == pkgs[name].manifest
      ensures State()[name].directDone == pkgs[name].directDepsCalculated && State()[name].direct == pkgs[name].directDeps
      ensures State()[name].depsDone == pkgs[name].depsCalculated && State()[name].deps == pkgs[name].deps
      ensures State()[name].descendantsDone == pkgs[name].descendantsCalculated && State()[name].descendants == pkgs[name].descendants
    {
    }

    // -------------------------------------------------------------- writes to the memo

    method PushDirect(name: string, d: string)
      requires Valid() && name in pkgs
      modifies pkgs[name]
      ensures name in old(State()) && State() == SetDirect(old(State()), name, old(State())[name].direct + [d])
    {
      pkgs[name].directDeps := pkgs[name].directDeps + [d];
    }

    method MarkDirect(name: string)
      requires Valid() && name in pkgs
      modifies pkgs[name]
      ensures name in old(State()) && State() == SetDirectDone(old(State()), name)
    {
      pkgs[name].directDepsCalculated := true;
    }

    method WriteDeps(name: string, list: seq<string>)
      requires Valid() && name in pkgs
      modifies pkgs[name]
      ensures name in old(State()) && State() == SetDeps(old(State()), name, list) && pkgs[name].deps == list
    {
      pkgs[name].deps := list;
    }

    method MarkDeps(name: string)
      requires Valid() && name in pkgs
      modifies pkgs[name]
      ensures name in old(State()) && State() == SetDone(old(State()), name) && pkgs[name].deps == old(pkgs[name].deps)
    {
      pkgs[name].depsCalculated := true;
    }

    /**
     `direct_deps`: succeeds exactly on manifests without errors, a dependency that was not
     crawled being an error unless it is to be a warning.
     */
    method DirectDeps(name: string, missingAsWarning: bool) returns (ok: bool)
      requires Valid() && name in pkgs && DirectOk(Table(), State())
      modifies pkgs[name]
      ensures name in old(State()) && name in State() && State() == SetDirectLike(old(State()), name, State()[name])
      ensures ok <==> old(State())[name].directDone
                      || (Readable(Table(), name) && (missingAsWarning || Rp.Good(Table(), name)))
      ensures ok || missingAsWarning ==> DirectOk(Table(), State())
      ensures ok ==> State()[name].directDone && State()[name].direct == NameGraph(Table())[name]
    {
      hide State, Table, DirectOk, NameGraph, DirectPrefix, Parsing, SetDirect, SetDirectDone, SetDirectLike, ReadableEntry;
      ghost var ms, m := Table(), State();
      StateAt(name);
      DirectOkAt(ms, m, name);
      if pkgs[name].directDepsCalculated {
        return true;
      }
      match pkgs[name].manifest
      case None =>
        return false;
      case Some(entries) =>
        NothingPushed(ms, m, name, entries);
        for i := 0 to |entries|
          invariant Parsing(ms, m, State(), name, entries, i)
          invariant ReadUpTo(ms, name, entries, missingAsWarning, i)
        {
          ParsingFrame(ms, m, State(), name, entries, i);
          EntryRead(ms, name, entries, missingAsWarning, i);
          if !Readable(ms, name) {
            ParsingFailed(ms, m, State(), name, entries, i);
          }
          if entries[i].None? {
            return false;
          }
          var d := entries[i].value;
          if d == name {
            return false;
          }
          Pushed(ms, m, State(), name, entries, i);
          if d in pkgs {
            PushDirect(name, d);
          } else if !missingAsWarning {
            return false;
          }
        }
        ParsedAll(ms, m, State(), name, entries);
        MarkDirect(name);
        StateAt(name);
        ok := true;
    }

    /** The linear search of the merge loops. */
    method Find(list: seq<string>, x: string) returns (k: Option<nat>)
      ensures k.None? <==> x !in list
      ensures k.Some? ==> k.value < |list| && list[k.value] == x && x !in list[..k.value]
    {
      for i := 0 to |list|
        invariant x !in list[..i]
      {
        if list[i] == x {
          return Some(i);
        }
        assert list[..i + 1] == list[..i] + [list[i]];
      }
      assert list[..|list|] == list;
      k := None;
    }

    /** One turn of the merge loop: bumped or left alone when already listed, pushed otherwise. */
    method MergeOne(name: string, traversal: Order, y: string)
      requires Valid() && name in pkgs
      modifies pkgs[name]
      ensures pkgs[name].deps == MergedOne(traversal, old(pkgs[name].deps), y)
      ensures name in old(State()) && State() == SetDeps(old(State()), name, pkgs[name].deps)
    {
      hide State, Bump, BumpAll, AppendNew, SetDeps;
      StateAt(name);
      var list := pkgs[name].deps;
      var k := Find(list, y);
      FoundMerged(traversal, list, y, k);
      SetDepsSame(State(), name);
      if k.Some? && traversal == Preorder {
        WriteDeps(name, list[..k.value] + list[k.value + 1..] + [y]);
      } else if k.None? {
        WriteDeps(name, list + [y]);
      }
    }

    /** Merging one direct dependency `x` and its dependencies `d` into a package's list. */
    method Merge(name: string, traversal: Order, x: string, d: seq<string>)
      requires Valid() && name in pkgs
      modifies pkgs[name]
      ensures pkgs[name].deps == Merged(traversal, old(pkgs[name].deps), x, d)
      ensures name in old(State()) && State() == SetDeps(old(State()), name, pkgs[name].deps)
    {
      hide State, Merged, MergedUpTo, MergedOne, SetDeps;
      StateAt(name);
      ghost var m, was := State(), pkgs[name].deps;
      SetDepsSame(m, name);
      if traversal == Preorder {
        WriteDeps(name, pkgs[name].deps + [x]);
      }
      MergeStarts(was, x, d);
      for j := 0 to |d|
        invariant pkgs[name].deps == MergedUpTo(traversal, was, x, d, j)
        invariant name in m && State() == SetDeps(m, name, pkgs[name].deps)
      {
        MergeStep(traversal, was, x, d, j);
        SetDepsTwice(m, name, pkgs[name].deps, MergedOne(traversal, pkgs[name].deps, d[j]));
        MergeOne(name, traversal, d[j]);
      }
      MergeEnds(traversal, was, x, d);
      if traversal == Postorder {
        SetDepsTwice(m, name, pkgs[name].deps, MergedOne(traversal, pkgs[name].deps, x));
        MergeOne(name, traversal, x);
      }
    }

    /**
     `deps`: a run that returns normally proves the graph acyclic from the package and yields
     the merged list of its order, for the package and for everything it memoised. It
     returns normally when all manifests are good, there is no cycle, and no chain is longer
     than the depth that is left.
     */
    method Deps(name: string, traversal: Order, depth: nat, ghost active: set<string>) returns (ok: bool, deps: seq<string>)
      requires Valid() && name in pkgs
      requires DirectOk(Table(), State()) && DepsOk(NameGraph(Table()), State(), traversal, active)
      requires Underway(NameGraph(Table()), active, name)
      modifies pkgs.Values
      ensures ok ==> Returned(Table(), traversal, old(State()), State(), name, active)
      ensures ok ==> Closed(NameGraph(Table())) && name in NameGraph(Table()) && AcyclicFrom(NameGraph(Table()), name)
                     && deps == InOrder(traversal, NameGraph(Table()), name)
      ensures LeavesRoom(Table(), name, depth) ==> ok
      decreases MAX_DEPENDENCY_TREE_DEPTH + 1 - depth
    {
      hide DirectOk, DepsOk, Computing, Returned, Underway, LeavesRoom, GoodFrom, NameGraph, InOrder, AcyclicFrom, Closed, Merged,
        Readable, Rp.Good, SetDeps, SetDone, SetDirectLike, State, Table;
      ghost var ms, m0 := Table(), State();
      deps := [];
      StateAt(name);
      if depth > MAX_DEPENDENCY_TREE_DEPTH {
        NoRoom(ms, name, depth);
        return false, deps;
      }
      if pkgs[name].depsCalculated {
        Memoised(ms, traversal, m0, name, active);
        return true, pkgs[name].deps;
      }
      ok := DirectDeps(name, false);
      if !ok {
        BadHasNoRoom(ms, name, depth);
        return;
      }
      StateAt(name);
      ComputingStarts(ms, traversal, m0, State(), name, active);
      var direct := pkgs[name].directDeps;
      assert direct == NameGraph(ms)[name];
      for i := 0 to |direct|
        invariant Computing(ms, traversal, m0, State(), name, i, active)
        modifies pkgs.Values
      {
        ghost var m := State();
        BeforeOne(ms, traversal, m0, m, name, i, active, depth);
        var d;
        ok, d := Deps(direct[i], traversal, depth + 1, active + {name});
        if !ok {
          return;
        }
        ComputingMerges(ms, traversal, m0, m, State(), name, i, active);
        StateAt(name);
        Merge(name, traversal, direct[i], d);
      }
      StateAt(name);
      ComputingEnds(ms, traversal, m0, State(), name, active);
      MarkDeps(name);
      ok, deps := true, pkgs[name].deps;
    }

    /** Nothing has been computed yet. */
    ghost predicate Fresh()
      reads this, pkgs.Values
    {
      forall n <- pkgs ::
        && !pkgs[n].directDepsCalculated && !pkgs[n].depsCalculated && !pkgs[n].descendantsCalculated
        && pkgs[n].directDeps == pkgs[n].deps == []
    }

    lemma FreshIsOk(traversal: Order)
      requires Fresh()
      ensures DirectOk(Table(), State()) && DepsOk(NameGraph(Table()), State(), traversal, {})
      ensures forall n <- State() :: !State()[n].directDone
      ensures DescendantsOk(NameGraph(Table()), order, State()) && DescendantsSound(NameGraph(Table()), State())
    {
      NameGraphIsClosed(Table());
    }

    /**
     The query for all dependencies, on fresh packages: when no chain is longer than the
     maximum depth it succeeds exactly when the manifests are good all the way down and there
     is no cycle.
     */
    method Depends(name: string, traversal: Order) returns (deps: Option<seq<string>>)
      requires Valid() && Fresh()
      modifies pkgs.Values
      ensures name !in pkgs ==> deps == None
      ensures deps.Some? ==> name in pkgs && GoodFrom(Table(), name)
      ensures deps.Some? ==>
        var g := NameGraph(Table());
        Closed(g) && name in g && AcyclicFrom(g, name) && deps.value == InOrder(traversal, g, name)
      ensures name in pkgs && LeavesRoom(Table(), name, 0) ==> deps.Some?
    {
      hide DirectOk, DepsOk, LeavesRoom, GoodFrom, NameGraph, InOrder, AcyclicFrom, Closed, State, Table, Advanced;
      ghost var m := State();
      FreshIsOk(traversal);
      if name !in pkgs {
        return None;
      }
      StateAt(name);
      var ok, list := Deps(name, traversal, 0, {});
      if !ok {
        return None;
      }
      ComputedIsGood(Table(), m, State(), traversal, name, Reach(NameGraph(Table()), name) + {name});
      deps := Some(list);
    }

    // -------------------------------------------------------------- inverse queries

    /** `has_parent`; None when reading the manifest throws. */
    method HasParent(p: string, name: string) returns (has: Option<bool>)
      requires Valid() && p in pkgs && DirectOk(Table(), State())
      modifies pkgs[p]
      ensures p in old(State()) && p in State() && State() == SetDirectLike(old(State()), p, State()[p])
      ensures DirectOk(Table(), State())
      ensures p in NameGraph(Table()) && (has == Some(true) <==> name in NameGraph(Table())[p])
      ensures has.Some? <==> Readable(Table(), p)
    {
      hide DirectOk, SetDirectLike, State, Table;
      StateAt(p);
      DirectOkAt(Table(), State(), p);
      var ok := DirectDeps(p, true);
      if !ok {
        return None;
      }
      StateAt(p);
      var k := Find(pkgs[p].directDeps, name);
      has := Some(k.Some?);
    }

    method WriteDescendants(name: string, list: seq<string>, done: bool)
      requires Valid() && name in pkgs
      modifies pkgs[name]
      ensures name in old(State()) && State() == SetDescendants(old(State()), name, list, done) && pkgs[name].descendants == list
    {
      pkgs[name].descendants := list;
      pkgs[name].descendantsCalculated := done;
    }

    /** Repetitions dropped by linear search. */
    method Unique(dups: seq<string>) returns (list: seq<string>)
      ensures list == AppendNew([], dups)
    {
      list := [];
      for j := 0 to |dups|
        invariant list == AppendNew([], dups[..j])
      {
        AppendNewStep([], dups, j);
        var k := Find(list, dups[j]);
        if k.None? {
          list := list + [dups[j]];
        }
      }
      assert dups[..|dups|] == dups;
    }

    /**
     `descendants`: fails only by its own depth, since whatever goes wrong further down is
     caught. The list never holds a package twice, nor one that does not depend on the package
     asked for. When no cycle leads to that package and chains fit into the depth that is left,
     it holds all of them.
     */
    method Descendants(name: string, depth: nat) returns (ok: bool, list: seq<string>)
      requires Valid() && name in pkgs && DirectOk(Table(), State()) && DescendantsSound(NameGraph(Table()), State())
      modifies pkgs.Values
      ensures DirectOk(Table(), State()) && DescendantsSound(NameGraph(Table()), State())
      ensures name in NameGraph(Table()) && Dependents(NameGraph(Table()), name, list) && NoDup(list)
      ensures ok <==> depth <= MAX_DEPENDENCY_TREE_DEPTH
      ensures old(Shallow(NameGraph(Table()), order, State(), name, depth)) ==>
        DescendantsOk(NameGraph(Table()), order, State()) && DescendantsAre(NameGraph(Table()), order, name, list)
      decreases MAX_DEPENDENCY_TREE_DEPTH + 1 - depth
    {
      hide DirectOk, NameGraph, State, Table, Shallow, DescendantsOk, DescendantsAre, SetDescendants, SetDirectLike, Collected, Readable, DescendantsSound, Dependents;
      ghost var ms, g, m0 := Table(), NameGraph(Table()), State();
      ghost var shallow := Shallow(g, order, m0, name, depth);
      list := [];
      StateAt(name);
      NobodyDepends(g, name);
      if depth > MAX_DEPENDENCY_TREE_DEPTH {
        TooDeep(g, order, m0, name, depth);
        return false, list;
      }
      ShallowMemo(g, order, m0, name, depth);
      if pkgs[name].descendantsCalculated {
        SoundAt(g, m0, name);
        return true, pkgs[name].descendants;
      }
      var dups: seq<string> := [];
      CollectedNone(g, order, m0, name, depth);
      for i := 0 to |order|
        invariant DirectOk(ms, State()) && DescendantsSound(g, State()) && Dependents(g, name, dups)
        invariant shallow ==> DescendantsOk(g, order, State()) && Collected(g, order, name, i, dups)
        modifies pkgs.Values
      {
        var p := order[i];
        ghost var m := State();
        StateAt(p);
        var has := HasParent(p, name);
        DirectKeepsDescendants(g, order, m, p, State()[p]);
        DirectKeepsSound(g, m, p, State()[p]);
        if has == Some(true) {
          if shallow {
            ShallowChild(g, order, m0, State(), name, i, depth);
          }
          ghost var before := dups;
          dups := dups + [p];
          var found, more := Descendants(p, depth + 1);
          NameGraphIsClosed(ms);
          OneDepends(g, name, p, before, more);
          if shallow {
            CollectedMore(g, order, name, i, before, more);
          }
          if found {
            dups := dups + more;
          }
        } else if shallow {
          CollectedSame(g, order, name, i, dups);
        }
      }
      list := Unique(dups);
      UniqueDepend(g, name, dups);
      StateAt(name);
      if shallow {
        CollectedAll(g, order, State(), name, dups, list);
      }
      WritingKeepsDirect(ms, State(), name, list);
      WritingKeepsSound(g, State(), name, list);
      WriteDescendants(name, list, true);
      ok := true;
    }

    /**
     `depends-on` on fresh packages. A package nobody crawled is added first, without a
     manifest. The list holds, once each, packages that depend on the given one; and when the
     graph has no cycle and no chain of more than the maximum number of edges, exactly those
     that hold it among their dependencies.
     */
    method DependsOn(name: string) returns (list: seq<string>)
      requires Valid() && Fresh()
      modifies this, pkgs.Values
      ensures Valid() && Table() == if name in old(Table()) then old(Table()) else old(Table())[name := None]
      ensures NoDup(list) && name in NameGraph(Table()) && Dependents(NameGraph(Table()), name, list)
      ensures var g := NameGraph(Table());
        Tractable(g) ==> forall x :: x in list <==> x in g && name in PostOrder(g, x)
    {
      hide Tractable, NameGraph, DirectOk, DescendantsOk, Shallow, DescendantsAre, Dependents, DescendantsSound, Reverse;
      if name !in pkgs {
        AddPackage(name);
      }
      FreshIsOk(Postorder);
      var ok;
      StateAt(name);
      ghost var g, m := NameGraph(Table()), State();
      ghost var tractable := Tractable(g);
      if tractable {
        TractableIsShallow(g, order, m, name);
      }
      ok, list := Descendants(name, 0);
      if tractable {
        ListedDepend(g, order, name, list);
      }
    }

    /** A package that no directory has. */
    method AddPackage(name: string)
      requires Valid() && Fresh() && name !in pkgs
      modifies this
      ensures Valid() && Fresh() && name in pkgs && Table() == old(Table())[name := None]
      ensures fresh(pkgs.Values - old(pkgs.Values))
    {
      var p := new Package(name, None);
      pkgs := pkgs[name := p];
      order := order + [name];
      assert forall n <- pkgs :: n == name || (n in old(pkgs) && pkgs[n] == old(pkgs)[n]);
    }

    /**
     `accumulate_deps`: on an acyclic graph, where the recursion ends, the chains from one
     package to another in depth-first order.
     */
    method AccumulateDeps(from: string, to: string) returns (chains: Option<seq<seq<string>>>)
      requires Valid() && from in pkgs && DirectOk(Table(), State())
      requires Closed(NameGraph(Table())) && from in NameGraph(Table()) && AcyclicFrom(NameGraph(Table()), from)
      modifies pkgs.Values
      ensures chains.Some? ==> DirectOk(Table(), State()) && chains.value == Paths(NameGraph(Table()), from, to)
      ensures GoodFrom(Table(), from) ==> chains.Some?
      decreases Reach(NameGraph(Table()), from)
    {
      hide DirectOk, NameGraph, State, Table, GoodFrom, AcyclicFrom, Closed, Reach, SetDirectLike, Readable, Rp.Good, PushFront;
      ghost var ms, g := Table(), NameGraph(Table());
      StateAt(from);
      var ok := DirectDeps(from, false);
      if !ok {
        BadIsNotGood(ms, from);
        return None;
      }
      StateAt(from);
      var direct := pkgs[from].directDeps;
      var acc: seq<seq<string>> := [];
      for i := 0 to |direct|
        invariant DirectOk(ms, State()) && acc == PathsOver(g, from, to, i)
        modifies pkgs.Values
      {
        var d := direct[i];
        AcyclicEdge(g, from, d);
        StateAt(from);
        if d == to {
          acc := acc + [[from, to]];
        } else {
          if GoodFrom(ms, from) {
            GoodFromEdge(ms, from, d);
          }
          var l := AccumulateDeps(d, to);
          if l.None? {
            return None;
          }
          var front := PushedFront(from, l.value);
          acc := acc + front;
        }
      }
      chains := Some(acc);
    }

    /** `push_front` on every chain. */
    method PushedFront(x: string, chains: seq<seq<string>>) returns (r: seq<seq<string>>)
      ensures r == PushFront(x, chains)
    {
      r := [];
      for k := 0 to |chains|
        invariant r == PushFront(x, chains[..k])
      {
        assert chains[..k + 1][..k] == chains[..k];
        r := r + [[x] + chains[k]];
      }
      assert chains[..|chains|] == chains;
    }
  }

  // ---------------------------------------------------------------- descendants

  function SetDescendants(m: Memory, name: string, list: seq<string>, done: bool): Memory
    requires name in m
  {
    m[name := m[name].(descendants := list, descendantsDone := done)]
  }

  /** The packages crawled, each once or more, in crawl order. */
  ghost predicate Lists(g: Graph<string>, pkgs: seq<string>)
  {
    Closed(g) && Elements(pkgs) == g.Keys && forall p <- pkgs :: p in g
  }

  ghost predicate DescendantsAre(g: Graph<string>, pkgs: seq<string>, n: string, list: seq<string>)
  {
    Lists(g, pkgs) && n in g && AcyclicFrom(Reverse(g, pkgs), n) && list == Chains.Descendants(g, pkgs, n)
  }

  ghost predicate DescendantsOk(g: Graph<string>, pkgs: seq<string>, m: Memory)
  {
    forall n <- m :: m[n].descendantsDone ==> DescendantsAre(g, pkgs, n, m[n].descendants)
  }

  /** A memo that is right, no cycle leading to `n`, and chains that fit into the depth that is left. */
  ghost predicate Shallow(g: Graph<string>, pkgs: seq<string>, m: Memory, n: string, depth: nat)
  {
    && Lists(g, pkgs) && n in g && DescendantsOk(g, pkgs, m) && AcyclicFrom(Reverse(g, pkgs), n)
    && Closed(Reverse(g, pkgs)) && depth + Height(Reverse(g, pkgs), n) <= MAX_DEPENDENCY_TREE_DEPTH
  }

  /** The list with repetitions after `k` packages. */
  ghost predicate Collected(g: Graph<string>, pkgs: seq<string>, n: string, k: nat, dups: seq<string>)
  {
    && Lists(g, pkgs) && n in g && AcyclicFrom(Reverse(g, pkgs), n) && k <= |pkgs|
    && dups == DescendantsOver(g, pkgs, n, k)
  }

  // ---------------------------------------------------------------- whoever is listed depends

  ghost predicate Dependents(g: Graph<string>, n: string, list: seq<string>)
  {
    forall x <- list :: x in g && Reaches(g, x, n)
  }

  ghost predicate DescendantsSound(g: Graph<string>, m: Memory)
  {
    forall n <- m :: m[n].descendantsDone ==> Dependents(g, n, m[n].descendants) && NoDup(m[n].descendants)
  }

  lemma NobodyDepends(g: Graph<string>, n: string)
    ensures Dependents(g, n, []) && NoDup<string>([])
  {
  }

  lemma SoundAt(g: Graph<string>, m: Memory, n: string)
    requires DescendantsSound(g, m) && n in m && m[n].descendantsDone
    ensures Dependents(g, n, m[n].descendants) && NoDup(m[n].descendants)
  {
  }

  lemma DirectKeepsSound(g: Graph<string>, m: Memory, p: string, memo: Memo)
    requires p in m && DescendantsSound(g, m)
    ensures DescendantsSound(g, SetDirectLike(m, p, memo))
  {
    hide Dependents;
  }

  lemma WritingKeepsSound(g: Graph<string>, m: Memory, n: string, list: seq<string>)
    requires n in m && DescendantsSound(g, m) && Dependents(g, n, list) && NoDup(list)
    ensures DescendantsSound(g, SetDescendants(m, n, list, true))
  {
    hide Dependents;
  }

  /** A package that names `n`, and whoever depends on it. */
  lemma OneDepends(g: Graph<string>, n: string, p: string, dups: seq<string>, more: seq<string>)
    requires Closed(g) && p in g && n in g[p] && Dependents(g, n, dups) && Dependents(g, p, more)
    ensures Dependents(g, n, dups + [p]) && Dependents(g, n, dups + [p] + more)
  {
    EdgeReaches(g, p, n);
    forall x | x in more ensures Reaches(g, x, n) {
      ReachesTransitive(g, x, p, n);
    }
  }

  lemma UniqueDepend(g: Graph<string>, n: string, dups: seq<string>)
    requires Dependents(g, n, dups)
    ensures Dependents(g, n, AppendNew([], dups)) && NoDup(AppendNew([], dups))
  {
    AppendNewElements([], dups);
  }

  /** No cycle, and no chain with more edges than the depth allows. */
  ghost predicate Tractable(g: Graph<string>)
  {
    Closed(g) && (forall x <- g :: AcyclicFrom(g, x)) && ChainsFit(g, MAX_DEPENDENCY_TREE_DEPTH)
  }

  lemma TractableIsShallow(g: Graph<string>, pkgs: seq<string>, m: Memory, n: string)
    requires Tractable(g) && n in g && Elements(pkgs) == g.Keys && (forall p <- pkgs :: p in g) && DescendantsOk(g, pkgs, m)
    ensures Shallow(g, pkgs, m, n, 0)
  {
    hide Reverse, Height, DescendantsOk;
    ReverseIsShallow(g, pkgs, n, MAX_DEPENDENCY_TREE_DEPTH);
  }

  lemma ListedDepend(g: Graph<string>, pkgs: seq<string>, n: string, list: seq<string>)
    requires Tractable(g) && DescendantsAre(g, pkgs, n, list)
    ensures forall x :: x in list <==> x in g && n in PostOrder(g, x)
  {
    hide PostOrder, DescendantsAre;
    DescendantsInvertDeps(g, pkgs, n, list);
  }

  lemma TooDeep(g: Graph<string>, pkgs: seq<string>, m: Memory, n: string, depth: nat)
    requires depth > MAX_DEPENDENCY_TREE_DEPTH
    ensures !Shallow(g, pkgs, m, n, depth)
  {
  }

  lemma ShallowMemo(g: Graph<string>, pkgs: seq<string>, m: Memory, n: string, depth: nat)
    requires n in m
    ensures Shallow(g, pkgs, m, n, depth) && m[n].descendantsDone ==> DescendantsAre(g, pkgs, n, m[n].descendants)
    ensures Shallow(g, pkgs, m, n, depth) ==> DescendantsOk(g, pkgs, m)
  {
  }

  lemma CollectedNone(g: Graph<string>, pkgs: seq<string>, m: Memory, n: string, depth: nat)
    ensures Shallow(g, pkgs, m, n, depth) ==> Collected(g, pkgs, n, 0, [])
  {
  }

  lemma DirectKeepsDescendants(g: Graph<string>, pkgs: seq<string>, m: Memory, p: string, memo: Memo)
    requires p in m
    ensures DescendantsOk(g, pkgs, m) ==> DescendantsOk(g, pkgs, SetDirectLike(m, p, memo))
  {
    hide DescendantsAre;
  }

  lemma ShallowChild(g: Graph<string>, pkgs: seq<string>, m: Memory, m': Memory, n: string, i: nat, depth: nat)
    requires Shallow(g, pkgs, m, n, depth) && DescendantsOk(g, pkgs, m') && i < |pkgs| && pkgs[i] in g && n in g[pkgs[i]]
    ensures Shallow(g, pkgs, m', pkgs[i], depth + 1) && depth + 1 <= MAX_DEPENDENCY_TREE_DEPTH
  {
    var h, p := Reverse(g, pkgs), pkgs[i];
    ReverseEdges(g, pkgs);
    AcyclicEdge(h, n, p);
    var j :| 0 <= j < |h[n]| && h[n][j] == p;
    HeightOfEdge(h, n, |h[n]|, j);
  }

  lemma CollectedMore(g: Graph<string>, pkgs: seq<string>, n: string, i: nat, dups: seq<string>, more: seq<string>)
    requires Collected(g, pkgs, n, i, dups) && i < |pkgs| && pkgs[i] in g && n in g[pkgs[i]]
    requires DescendantsAre(g, pkgs, pkgs[i], more)
    ensures Collected(g, pkgs, n, i + 1, dups + [pkgs[i]] + more)
  {
  }

  lemma CollectedSame(g: Graph<string>, pkgs: seq<string>, n: string, i: nat, dups: seq<string>)
    requires Collected(g, pkgs, n, i, dups) && i < |pkgs| && pkgs[i] in g && n !in g[pkgs[i]]
    ensures Collected(g, pkgs, n, i + 1, dups)
  {
  }

  lemma CollectedAll(g: Graph<string>, pkgs: seq<string>, m: Memory, n: string, dups: seq<string>, list: seq<string>)
    requires Collected(g, pkgs, n, |pkgs|, dups) && list == AppendNew([], dups) && DescendantsOk(g, pkgs, m) && n in m
    ensures DescendantsAre(g, pkgs, n, list) && DescendantsOk(g, pkgs, SetDescendants(m, n, list, true))
  {
    assert DescendantsAre(g, pkgs, n, list);
    hide DescendantsAre;
  }

  lemma WritingKeepsDirect(ms: Manifests, m: Memory, name: string, list: seq<string>)
    requires DirectOk(ms, m) && name in m
    ensures DirectOk(ms, SetDescendants(m, name, list, true))
  {
    hide Readable, Direct;
    forall n | n in m ensures DirectOkFor(ms, n, SetDescendants(m, name, list, true)[n]) {
      assert DirectOkFor(ms, n, m[n]);
    }
  }

  /** On an acyclic graph, descendants are exactly the packages whose dependencies include the package. */
  lemma DescendantsInvertDeps(g: Graph<string>, pkgs: seq<string>, n: string, list: seq<string>)
    requires DescendantsAre(g, pkgs, n, list) && forall x <- g :: AcyclicFrom(g, x)
    ensures NoDup(list) && forall x :: x in list <==> x in g && n in PostOrder(g, x)
  {
    DescendantsAreInverse(g, pkgs, n);
    forall x | x in g ensures n in PostOrder(g, x) <==> n in Reach(g, x) {
      PostOrderIsTopological(g, x);
      assert n in PostOrder(g, x) <==> n in Elements(PostOrder(g, x));
    }
  }

  lemma BadIsNotGood(ms: Manifests, n: string)
    requires n in ms
    ensures GoodFrom(ms, n) ==> Readable(ms, n) && Rp.Good(ms, n)
  {
  }

  /** Good manifests, no cycle, and chains that fit into the depth that is left. */
  ghost predicate LeavesRoom(ms: Manifests, name: string, depth: nat)
    requires name in ms
  {
    var g := NameGraph(ms);
    && GoodFrom(ms, name) && Closed(g) && AcyclicFrom(g, name)
    && depth + Height(g, name) <= MAX_DEPENDENCY_TREE_DEPTH
  }

  lemma NoRoom(ms: Manifests, name: string, depth: nat)
    requires name in ms && depth > MAX_DEPENDENCY_TREE_DEPTH
    ensures !LeavesRoom(ms, name, depth)
  {
  }

  lemma BadHasNoRoom(ms: Manifests, name: string, depth: nat)
    requires name in ms && !(Readable(ms, name) && Rp.Good(ms, name))
    ensures !LeavesRoom(ms, name, depth)
  {
  }

  /** Before one direct dependency is computed. */
  lemma BeforeOne(ms: Manifests, order: Order, m0: Memory, m: Memory, name: string, i: nat, active: set<string>, depth: nat)
    requires name in ms && Computing(ms, order, m0, m, name, i, active) && Underway(NameGraph(ms), active, name)
    requires i < |NameGraph(ms)[name]|
    ensures var d := NameGraph(ms)[name][i];
      && d in ms && DirectOk(ms, m) && DepsOk(NameGraph(ms), m, order, active + {name})
      && Underway(NameGraph(ms), active + {name}, d)
      && (LeavesRoom(ms, name, depth) ==> LeavesRoom(ms, d, depth + 1))
  {
    NameGraphIsClosed(ms);
    var g := NameGraph(ms);
    UnderwayEdge(g, active, name, g[name][i]);
    if LeavesRoom(ms, name, depth) {
      GoodFromEdge(ms, name, g[name][i]);
      HeightOfEdge(g, name, |g[name]|, i);
    }
  }
}
