/**
 The crawl for packages: an explicit double-ended queue, with timing markers that come back
 after everything below a directory, does what a recursive crawl does.
 */
module Crawl {
  import opened Wrappers

  const MAX_DIRECTORY_DEPTH: nat := 1000

  /** A path, as its components. */
  type Path = seq<string>

  /** A directory: whether it holds a manifest, a `rospack_nosubdirs` marker, and its subdirectories in reading order. */
  datatype Dir = Dir(name: string, isPackage: bool, noSubdirs: bool, children: seq<Dir>)

  /** A place where a crawl starts. */
  datatype Root = Root(path: Path, dir: Dir)

  /** CrawlQueueEntry; `started` for an entry with a start time, a timing marker. */
  datatype Entry = Entry(path: Path, dir: Dir, started: bool, startNumPkgs: nat)

  /** One line of the profile. */
  datatype Record = Record(path: Path, hasManifest: bool)

  /** The accumulated packages, the count of package directories seen below others, and the profile. */
  datatype State = State(pkgs: seq<Path>, totalNumPkgs: nat, profile: seq<Record>)

  /** Profiling on or off, and whether it is for directories without packages only. */
  datatype Options = Options(profiling: bool, zombieOnly: bool)

  predicate Hidden(d: Dir)
  {
    d.name != "" && d.name[0] == '.'
  }

  /** A subdirectory that is listed as a package. */
  predicate Listed(d: Dir)
  {
    !Hidden(d) && d.isPackage
  }

  /** A subdirectory that the crawl goes into. */
  predicate Entered(d: Dir)
  {
    !Hidden(d) && !d.isPackage && !d.noSubdirs
  }

  /** The name of a package: the last component. */
  function Name(p: Path): string
  {
    if p == [] then "" else p[|p| - 1]
  }

  predicate HasName(pkgs: seq<Path>, name: string)
  {
    exists p <- pkgs :: Name(p) == name
  }

  /** The first package of a name takes precedence. */
  function Add(pkgs: seq<Path>, p: Path): seq<Path>
  {
    if HasName(pkgs, Name(p)) then pkgs else pkgs + [p]
  }

  function AddAll(pkgs: seq<Path>, found: seq<Path>): seq<Path>
    decreases |found|
  {
    if found == [] then pkgs else AddAll(Add(pkgs, found[0]), found[1..])
  }

  function Recorded(o: Options, st: State, path: Path, hasManifest: bool): State
  {
    if o.profiling && (!o.zombieOnly || !hasManifest) then st.(profile := st.profile + [Record(path, hasManifest)]) else st
  }

  // ---------------------------------------------------------------- the recursive crawl

  /** The packages among the first `k` subdirectories. */
  function ListedUpTo(path: Path, d: Dir, k: nat): seq<Path>
    requires k <= |d.children|
  {
    if k == 0 then []
    else ListedUpTo(path, d, k - 1) + if Listed(d.children[k - 1]) then [path + [d.children[k - 1].name]] else []
  }

  function Scanned(st: State, path: Path, d: Dir, k: nat): State
    requires k <= |d.children|
  {
    var listed := ListedUpTo(path, d, k);
    st.(pkgs := AddAll(st.pkgs, listed), totalNumPkgs := st.totalNumPkgs + |listed|)
  }

  /** A recursive crawl of one directory; None for a path that is too deep. */
  function CrawlDir(o: Options, st: State, path: Path, d: Dir): Option<State>
    decreases d, |d.children| + 1
  {
    if |path| > MAX_DIRECTORY_DEPTH then None
    else if d.isPackage then Some(st.(pkgs := Add(st.pkgs, path)))
    else
      match CrawlChildren(o, Scanned(st, path, d, |d.children|), path, d, |d.children|)
      case None => None
      case Some(st') => Some(Recorded(o, st', path, st.totalNumPkgs < st'.totalNumPkgs))
  }

  /** The first `k` subdirectories, last one first. */
  function CrawlChildren(o: Options, st: State, path: Path, d: Dir, k: nat): Option<State>
    requires k <= |d.children|
    decreases d, k
  {
    if k == 0 then Some(st)
    else
      var c := d.children[k - 1];
      if Entered(c) then
        match CrawlDir(o, st, path + [c.name], c)
        case None => None
        case Some(st') => CrawlChildren(o, st', path, d, k - 1)
      else CrawlChildren(o, st, path, d, k - 1)
  }

  function CrawlRoots(o: Options, st: State, roots: seq<Root>): Option<State>
    decreases |roots|
  {
    if roots == [] then Some(st)
    else
      match CrawlDir(o, st, roots[0].path, roots[0].dir)
      case None => None
      case Some(st') => CrawlRoots(o, st', roots[1..])
  }

  // ---------------------------------------------------------------- the queue

  function CrawlEntry(o: Options, st: State, e: Entry): Option<State>
  {
    if e.started then Some(Recorded(o, st, e.path, e.startNumPkgs < st.totalNumPkgs)) else CrawlDir(o, st, e.path, e.dir)
  }

  /** What working off a queue comes to. */
  function Finish(o: Options, st: State, q: seq<Entry>): Option<State>
    decreases |q|
  {
    if q == [] then Some(st)
    else
      match CrawlEntry(o, st, q[0])
      case None => None
      case Some(st') => Finish(o, st', q[1..])
  }

  /** The first `k` subdirectories as they end up at the front of the queue. */
  function Pushed(path: Path, d: Dir, k: nat): seq<Entry>
    requires k <= |d.children|
  {
    if k == 0 then []
    else
      var c := d.children[k - 1];
      if Entered(c) then [Entry(path + [c.name], c, false, 0)] + Pushed(path, d, k - 1) else Pushed(path, d, k - 1)
  }

  function Entries(roots: seq<Root>): seq<Entry>
  {
    if roots == [] then [] else [Entry(roots[0].path, roots[0].dir, false, 0)] + Entries(roots[1..])
  }

  lemma FinishFirst(o: Options, st: State, e: Entry, q: seq<Entry>)
    ensures Finish(o, st, [e] + q) ==
      match CrawlEntry(o, st, e) case None => None case Some(st') => Finish(o, st', q)
  {
    assert ([e] + q)[1..] == q;
  }

  lemma {:induction false} FinishConcat(o: Options, st: State, a: seq<Entry>, b: seq<Entry>)
    ensures Finish(o, st, a + b) == match Finish(o, st, a) case None => None case Some(st') => Finish(o, st', b)
    decreases |a|
  {
    if a == [] {
      assert a + b == b;
    } else {
      assert a + b == [a[0]] + (a[1..] + b);
      FinishFirst(o, st, a[0], a[1..] + b);
      var r := CrawlEntry(o, st, a[0]);
      if r.Some? {
        FinishConcat(o, r.value, a[1..], b);
      }
    }
  }

  lemma {:induction false} FinishPushed(o: Options, st: State, path: Path, d: Dir, k: nat)
    requires k <= |d.children|
    ensures Finish(o, st, Pushed(path, d, k)) == CrawlChildren(o, st, path, d, k)
    decreases k
  {
    if k > 0 {
      var c := d.children[k - 1];
      if Entered(c) {
        FinishFirst(o, st, Entry(path + [c.name], c, false, 0), Pushed(path, d, k - 1));
        var r := CrawlDir(o, st, path + [c.name], c);
        if r.Some? {
          FinishPushed(o, r.value, path, d, k - 1);
        }
      } else {
        FinishPushed(o, st, path, d, k - 1);
      }
    }
  }

  lemma {:induction false} FinishEntries(o: Options, st: State, roots: seq<Root>)
    ensures Finish(o, st, Entries(roots)) == CrawlRoots(o, st, roots)
    decreases |roots|
  {
    if roots != [] {
      FinishFirst(o, st, Entry(roots[0].path, roots[0].dir, false, 0), Entries(roots[1..]));
      var r := CrawlDir(o, st, roots[0].path, roots[0].dir);
      if r.Some? {
        FinishEntries(o, r.value, roots[1..]);
      }
    }
  }

  /** The timing marker behind the subdirectories of `e`, if there is one. */
  function Marker(o: Options, e: Entry, total: nat): seq<Entry>
  {
    if o.profiling then [Entry(e.path, e.dir, true, total)] else []
  }

  /** Expanding a directory: its packages are listed, its subdirectories go to the front, before its marker. */
  lemma Expanded(o: Options, st: State, e: Entry, rest: seq<Entry>)
    requires !e.started && |e.path| <= MAX_DIRECTORY_DEPTH && !e.dir.isPackage
    ensures var n := |e.dir.children|;
      Finish(o, st, [e] + rest)
      == Finish(o, Scanned(st, e.path, e.dir, n), Pushed(e.path, e.dir, n) + (Marker(o, e, st.totalNumPkgs) + rest))
  {
    var n, d, path := |e.dir.children|, e.dir, e.path;
    var scanned, marker := Scanned(st, path, d, n), Marker(o, e, st.totalNumPkgs);
    FinishFirst(o, st, e, rest);
    FinishConcat(o, scanned, Pushed(path, d, n), marker + rest);
    FinishPushed(o, scanned, path, d, n);
    var r := CrawlChildren(o, scanned, path, d, n);
    if r.Some? {
      MarkerWorkedOff(o, r.value, e, st.totalNumPkgs, rest);
    }
  }

  lemma MarkerWorkedOff(o: Options, st: State, e: Entry, total: nat, rest: seq<Entry>)
    ensures Finish(o, st, Marker(o, e, total) + rest) == Finish(o, Recorded(o, st, e.path, total < st.totalNumPkgs), rest)
  {
    if o.profiling {
      FinishFirst(o, st, Entry(e.path, e.dir, true, total), rest);
    } else {
      assert Marker(o, e, total) + rest == rest;
    }
  }

  // ---------------------------------------------------------------- termination

  lemma NothingScanned(st: State, path: Path, d: Dir)
    ensures Scanned(st, path, d, 0) == st
  {
  }

  lemma ScannedNext(st: State, path: Path, d: Dir, k: nat)
    requires k < |d.children|
    ensures var c, scanned := d.children[k], Scanned(st, path, d, k);
      Scanned(st, path, d, k + 1)
      == if Listed(c) then scanned.(pkgs := Add(scanned.pkgs, path + [c.name]), totalNumPkgs := scanned.totalNumPkgs + 1) else scanned
  {
    var c, listed := d.children[k], ListedUpTo(path, d, k);
    if Listed(c) {
      AddAllConcat(st.pkgs, listed, [path + [c.name]]);
      AddAllOne(AddAll(st.pkgs, listed), path + [c.name]);
    } else {
      assert listed + [] == listed;
    }
  }

  /** Twice the number of directories. */
  ghost function Weight(d: Dir): nat
    decreases d, |d.children| + 1
  {
    2 + ChildrenWeight(d, |d.children|)
  }

  ghost function ChildrenWeight(d: Dir, k: nat): nat
    requires k <= |d.children|
    decreases d, k
  {
    if k == 0 then 0 else ChildrenWeight(d, k - 1) + Weight(d.children[k - 1])
  }

  ghost function QueueWeight(q: seq<Entry>): nat
  {
    if q == [] then 0 else (if q[0].started then 1 else Weight(q[0].dir)) + QueueWeight(q[1..])
  }

  lemma {:induction false} QueueWeightConcat(a: seq<Entry>, b: seq<Entry>)
    ensures QueueWeight(a + b) == QueueWeight(a) + QueueWeight(b)
    decreases |a|
  {
    if a == [] {
      assert a + b == b;
    } else {
      QueueWeightConcat(a[1..], b);
      assert (a + b)[1..] == a[1..] + b;
    }
  }

  lemma {:induction false} PushedWeight(path: Path, d: Dir, k: nat)
    requires k <= |d.children|
    ensures QueueWeight(Pushed(path, d, k)) <= ChildrenWeight(d, k)
  {
    if k > 0 {
      PushedWeight(path, d, k - 1);
      var c := d.children[k - 1];
      if Entered(c) {
        assert ([Entry(path + [c.name], c, false, 0)] + Pushed(path, d, k - 1))[1..] == Pushed(path, d, k - 1);
      }
    }
  }

  lemma ExpandedWeight(o: Options, e: Entry, total: nat, rest: seq<Entry>)
    requires !e.started
    ensures var n := |e.dir.children|;
      QueueWeight(Pushed(e.path, e.dir, n) + (Marker(o, e, total) + rest)) < QueueWeight([e] + rest)
  {
    var n := |e.dir.children|;
    PushedWeight(e.path, e.dir, n);
    QueueWeightConcat(Pushed(e.path, e.dir, n), Marker(o, e, total) + rest);
    QueueWeightConcat(Marker(o, e, total), rest);
    assert ([e] + rest)[1..] == rest;
    assert o.profiling ==> Marker(o, e, total)[1..] == [];
  }

  // ---------------------------------------------------------------- what a crawl finds

  /** The package directories met, in the order in which they are met. */
  function Found(path: Path, d: Dir): seq<Path>
    decreases d, |d.children| + 1
  {
    if d.isPackage then [path] else ListedUpTo(path, d, |d.children|) + FoundBelow(path, d, |d.children|)
  }

  function FoundBelow(path: Path, d: Dir, k: nat): seq<Path>
    requires k <= |d.children|
    decreases d, k
  {
    if k == 0 then []
    else
      var c := d.children[k - 1];
      (if Entered(c) then Found(path + [c.name], c) else []) + FoundBelow(path, d, k - 1)
  }

  /** The profile of a directory: everything below it first, and whether there is a package below it. */
  function Records(o: Options, path: Path, d: Dir): seq<Record>
    decreases d, |d.children| + 1
  {
    if d.isPackage then []
    else
      var hasManifest := Found(path, d) != [];
      RecordsBelow(o, path, d, |d.children|)
      + if o.profiling && (!o.zombieOnly || !hasManifest) then [Record(path, hasManifest)] else []
  }

  function RecordsBelow(o: Options, path: Path, d: Dir, k: nat): seq<Record>
    requires k <= |d.children|
    decreases d, k
  {
    if k == 0 then []
    else
      var c := d.children[k - 1];
      (if Entered(c) then Records(o, path + [c.name], c) else []) + RecordsBelow(o, path, d, k - 1)
  }

  /** No directory the crawl enters is too deep. */
  predicate Fits(path: Path, d: Dir)
    decreases d, |d.children| + 1
  {
    |path| <= MAX_DIRECTORY_DEPTH && (d.isPackage || FitsBelow(path, d, |d.children|))
  }

  predicate FitsBelow(path: Path, d: Dir, k: nat)
    requires k <= |d.children|
    decreases d, k
  {
    k > 0 ==> (Entered(d.children[k - 1]) ==> Fits(path + [d.children[k - 1].name], d.children[k - 1])) && FitsBelow(path, d, k - 1)
  }

  /** The state once `found` has been met and `records` written. */
  function After(st: State, found: seq<Path>, counted: nat, records: seq<Record>): State
  {
    State(AddAll(st.pkgs, found), st.totalNumPkgs + counted, st.profile + records)
  }

  lemma {:induction false} AddAllConcat(pkgs: seq<Path>, a: seq<Path>, b: seq<Path>)
    ensures AddAll(pkgs, a + b) == AddAll(AddAll(pkgs, a), b)
    decreases |a|
  {
    if a == [] {
      assert a + b == b;
    } else {
      assert (a + b)[0] == a[0] && (a + b)[1..] == a[1..] + b;
      AddAllConcat(Add(pkgs, a[0]), a[1..], b);
    }
  }

  lemma AddAllOne(pkgs: seq<Path>, p: Path)
    ensures AddAll(pkgs, [p]) == Add(pkgs, p)
  {
    assert [p][1..] == [];
  }

  /**
   A crawl of a directory gives up exactly when it would enter one that is too deep; otherwise
   it adds what is found, and a directory is marked as having a manifest exactly when a
   package is found below it, whatever was counted before.
   */
  lemma {:induction false} CrawlFinds(o: Options, st: State, path: Path, d: Dir)
    ensures CrawlDir(o, st, path, d) ==
      if Fits(path, d) then Some(After(st, Found(path, d), if d.isPackage then 0 else |Found(path, d)|, Records(o, path, d))) else None
    decreases d, |d.children| + 1
  {
    if d.isPackage {
      AddAllOne(st.pkgs, path);
      assert st.profile + [] == st.profile;
    } else {
      ChildrenFind(o, Scanned(st, path, d, |d.children|), path, d, |d.children|);
      ScannedThenBelow(o, st, path, d);
    }
  }

  lemma ScannedThenBelow(o: Options, st: State, path: Path, d: Dir)
    requires !d.isPackage
    requires CrawlChildren(o, Scanned(st, path, d, |d.children|), path, d, |d.children|) ==
      if FitsBelow(path, d, |d.children|) then
        Some(After(Scanned(st, path, d, |d.children|), FoundBelow(path, d, |d.children|), |FoundBelow(path, d, |d.children|)|,
                   RecordsBelow(o, path, d, |d.children|)))
      else None
    ensures CrawlDir(o, st, path, d) ==
      if Fits(path, d) then Some(After(st, Found(path, d), |Found(path, d)|, Records(o, path, d))) else None
  {
    var n := |d.children|;
    var listed, below, records := ListedUpTo(path, d, n), FoundBelow(path, d, n), RecordsBelow(o, path, d, n);
    ScanCombines(o, st, path, listed, below, records);
    hide ListedUpTo, FoundBelow, RecordsBelow, CrawlChildren, FitsBelow, AddAll, Recorded, After;
    assert Scanned(st, path, d, n) == Counted(st, listed);
  }

  function Counted(st: State, listed: seq<Path>): State
  {
    st.(pkgs := AddAll(st.pkgs, listed), totalNumPkgs := st.totalNumPkgs + |listed|)
  }

  lemma ScanCombines(o: Options, st: State, path: Path, listed: seq<Path>, below: seq<Path>, records: seq<Record>)
    ensures var st' := After(Counted(st, listed), below, |below|, records);
      var found := listed + below;
      Recorded(o, st', path, st.totalNumPkgs < st'.totalNumPkgs)
      == After(st, found, |found|, records + if o.profiling && (!o.zombieOnly || found == []) then [Record(path, found != [])] else [])
  {
    AddAllConcat(st.pkgs, listed, below);
    assert |listed + below| == |listed| + |below|;
    var r := [Record(path, listed + below != [])];
    assert st.profile + records + r == st.profile + (records + r);
    assert records + [] == records;
  }

  lemma {:induction false} ChildrenFind(o: Options, st: State, path: Path, d: Dir, k: nat)
    requires k <= |d.children|
    ensures CrawlChildren(o, st, path, d, k) ==
      if FitsBelow(path, d, k) then Some(After(st, FoundBelow(path, d, k), |FoundBelow(path, d, k)|, RecordsBelow(o, path, d, k))) else None
    decreases d, k
  {
    if k == 0 {
      assert st.profile + [] == st.profile;
    } else {
      var c := d.children[k - 1];
      if Entered(c) {
        CrawlFinds(o, st, path + [c.name], c);
        if Fits(path + [c.name], c) {
          var a, r := Found(path + [c.name], c), Records(o, path + [c.name], c);
          ChildrenFind(o, After(st, a, |a|, r), path, d, k - 1);
          AfterTwice(st, a, r, FoundBelow(path, d, k - 1), RecordsBelow(o, path, d, k - 1));
        }
      } else {
        ChildrenFind(o, st, path, d, k - 1);
        assert [] + FoundBelow(path, d, k - 1) == FoundBelow(path, d, k - 1);
        assert [] + RecordsBelow(o, path, d, k - 1) == RecordsBelow(o, path, d, k - 1);
      }
    }
  }

  lemma AfterTwice(st: State, a: seq<Path>, r: seq<Record>, b: seq<Path>, s: seq<Record>)
    ensures After(After(st, a, |a|, r), b, |b|, s) == After(st, a + b, |a + b|, r + s)
  {
    AddAllConcat(st.pkgs, a, b);
    assert st.profile + r + s == st.profile + (r + s);
  }

  // ---------------------------------------------------------------- what is found

  /**
   A way down from `d`: subdirectory positions, through directories the crawl enters, to a
   subdirectory listed as a package.
   */
  predicate Route(d: Dir, r: seq<nat>)
    decreases |r|
  {
    && r != [] && r[0] < |d.children| && !d.isPackage
    && var c := d.children[r[0]];
      if |r| == 1 then Listed(c) else Entered(c) && Route(c, r[1..])
  }

  function PathOf(path: Path, d: Dir, r: seq<nat>): Path
    requires Route(d, r)
    decreases |r|
  {
    var c := d.children[r[0]];
    if |r| == 1 then path + [c.name] else PathOf(path + [c.name], c, r[1..])
  }

  /** Positions of subdirectories, one below the other. */
  predicate Leads(d: Dir, r: seq<nat>)
    decreases |r|
  {
    r != [] ==> r[0] < |d.children| && Leads(d.children[r[0]], r[1..])
  }

  function DirAt(d: Dir, r: seq<nat>): Dir
    requires Leads(d, r)
    decreases |r|
  {
    if r == [] then d else DirAt(d.children[r[0]], r[1..])
  }

  /** Step `i` of a way down: not hidden; a package at the end only; before that, not marked. */
  predicate StepIsOpen(d: Dir, r: seq<nat>, i: nat)
    requires i <= |r|
  {
    && Leads(d, r[..i])
    && var c := DirAt(d, r[..i]);
      (c.name == "" || c.name[0] != '.') && (c.isPackage <==> i == |r|) && (i < |r| ==> !c.noSubdirs)
  }

  /** Routes by their steps: names that do not begin with a dot, through unmarked directories, to a package. */
  lemma {:induction false} RouteBySteps(d: Dir, r: seq<nat>)
    ensures Route(d, r) <==> r != [] && !d.isPackage && forall i :: 1 <= i <= |r| ==> StepIsOpen(d, r, i)
    decreases |r|
  {
    if r != [] && r[0] < |d.children| {
      var c, rest := d.children[r[0]], r[1..];
      FirstStep(d, r);
      if |r| > 1 {
        RouteBySteps(c, rest);
        forall i | 2 <= i <= |r| ensures StepIsOpen(d, r, i) <==> StepIsOpen(c, rest, i - 1) {
          assert r[..i][1..] == rest[..i - 1];
        }
        assert (forall i :: 2 <= i <= |r| ==> StepIsOpen(d, r, i)) <==> forall i :: 1 <= i <= |rest| ==> StepIsOpen(c, rest, i) by {
          hide StepIsOpen;
          forall i | 1 <= i <= |rest| ensures StepIsOpen(d, r, i + 1) <==> StepIsOpen(c, rest, i) {
          }
        }
      }
    } else if r != [] {
      assert !StepIsOpen(d, r, 1);
    }
  }

  lemma FirstStep(d: Dir, r: seq<nat>)
    requires r != [] && r[0] < |d.children|
    ensures StepIsOpen(d, r, 1) <==> if |r| == 1 then Listed(d.children[r[0]]) else Entered(d.children[r[0]])
  {
    var c, first := d.children[r[0]], r[..1];
    assert first[1..] == [] && first[0] == r[0];
    assert Leads(c, []) && DirAt(c, []) == c;
    assert Leads(d, first) && DirAt(d, first) == c;
  }

  lemma {:induction false} ListedAre(path: Path, d: Dir, k: nat, p: Path)
    requires k <= |d.children|
    ensures p in ListedUpTo(path, d, k) <==> exists i :: 0 <= i < k && Listed(d.children[i]) && p == path + [d.children[i].name]
  {
    if k > 0 {
      ListedAre(path, d, k - 1, p);
    }
  }

  /** Every package at the end of a route is found. */
  lemma {:induction false} RoutesAreFound(path: Path, d: Dir, r: seq<nat>)
    requires Route(d, r)
    ensures PathOf(path, d, r) in Found(path, d)
    decreases |r|
  {
    var i := r[0];
    var c := d.children[i];
    if |r| == 1 {
      ListedAre(path, d, |d.children|, path + [c.name]);
    } else {
      RoutesAreFound(path + [c.name], c, r[1..]);
      BelowIsFound(path, d, i, |d.children|, PathOf(path, d, r));
    }
  }

  lemma {:induction false} BelowIsFound(path: Path, d: Dir, i: nat, k: nat, p: Path)
    requires i < k <= |d.children| && Entered(d.children[i]) && p in Found(path + [d.children[i].name], d.children[i])
    ensures p in FoundBelow(path, d, k)
    decreases k
  {
    if i < k - 1 {
      BelowIsFound(path, d, i, k - 1, p);
    }
  }

  /** Whatever is found is at the end of a route. */
  lemma {:induction false} FoundHasRoute(path: Path, d: Dir, p: Path) returns (r: seq<nat>)
    requires !d.isPackage && p in Found(path, d)
    ensures Route(d, r) && PathOf(path, d, r) == p
    decreases d, |d.children| + 1
  {
    if p in ListedUpTo(path, d, |d.children|) {
      ListedAre(path, d, |d.children|, p);
      var i :| 0 <= i < |d.children| && Listed(d.children[i]) && p == path + [d.children[i].name];
      r := [i];
    } else {
      r := BelowHasRoute(path, d, |d.children|, p);
    }
  }

  lemma {:induction false} BelowHasRoute(path: Path, d: Dir, k: nat, p: Path) returns (r: seq<nat>)
    requires k <= |d.children| && !d.isPackage && p in FoundBelow(path, d, k)
    ensures Route(d, r) && PathOf(path, d, r) == p
    decreases d, k
  {
    hide Route, PathOf, Found, FoundBelow;
    BelowIsSome(path, d, k, p);
    var c := d.children[k - 1];
    FoundBelowStep(path, d, k);
    if Entered(c) && p in Found(path + [c.name], c) {
      var rest := FoundHasRoute(path + [c.name], c, p);
      r := [k - 1] + rest;
      RouteThrough(path, d, k - 1, rest);
    } else {
      r := BelowHasRoute(path, d, k - 1, p);
    }
  }

  lemma BelowIsSome(path: Path, d: Dir, k: nat, p: Path)
    requires k <= |d.children| && p in FoundBelow(path, d, k)
    ensures k > 0
  {
  }

  lemma NoMembers<T>(s: seq<T>)
    ensures s == [] <==> forall x :: x !in s
  {
    if s != [] {
      assert s[0] in s;
    }
  }

  /** A package lies in the crawled subtree. */
  ghost predicate PackageBelow(d: Dir)
  {
    exists r :: Route(d, r)
  }

  /** A directory is profiled as having a manifest exactly when a package lies in its crawled subtree. */
  lemma ManifestIffPackageBelow(path: Path, d: Dir)
    requires !d.isPackage
    ensures Found(path, d) != [] <==> PackageBelow(d)
  {
    NoMembers(Found(path, d));
    if p :| p in Found(path, d) {
      var r := FoundHasRoute(path, d, p);
      assert Route(d, r);
    } else {
      forall r ensures !Route(d, r) {
        if Route(d, r) {
          RoutesAreFound(path, d, r);
        }
      }
    }
  }

  // ---------------------------------------------------------------- unique names

  ghost predicate UniqueNames(pkgs: seq<Path>)
  {
    forall i, j :: 0 <= i < j < |pkgs| ==> Name(pkgs[i]) != Name(pkgs[j])
  }

  /** Names stay unique, earlier packages stay, and every name met is there. */
  lemma {:induction false} AddAllKeepsFirst(pkgs: seq<Path>, found: seq<Path>)
    requires UniqueNames(pkgs)
    ensures UniqueNames(AddAll(pkgs, found)) && pkgs <= AddAll(pkgs, found)
    ensures forall n :: HasName(AddAll(pkgs, found), n) <==> HasName(pkgs, n) || HasName(found, n)
    decreases |found|
  {
    if found != [] {
      var p, rest := found[0], found[1..];
      AddKeepsFirst(pkgs, p);
      AddAllKeepsFirst(Add(pkgs, p), rest);
      assert found == [p] + rest;
      forall n ensures HasName(found, n) <==> Name(p) == n || HasName(rest, n) {
        NameOfFirst(p, rest, n);
      }
    }
  }

  lemma NameOfFirst(p: Path, rest: seq<Path>, n: string)
    ensures HasName([p] + rest, n) <==> Name(p) == n || HasName(rest, n)
  {
    assert p in [p] + rest;
    if HasName(rest, n) {
      var q :| q in rest && Name(q) == n;
      assert q in [p] + rest;
    }
  }

  lemma AddKeepsFirst(pkgs: seq<Path>, p: Path)
    requires UniqueNames(pkgs)
    ensures UniqueNames(Add(pkgs, p)) && pkgs <= Add(pkgs, p)
    ensures forall n :: HasName(Add(pkgs, p), n) <==> HasName(pkgs, n) || Name(p) == n
  {
    if !HasName(pkgs, Name(p)) {
      forall i | 0 <= i < |pkgs| ensures Name(pkgs[i]) != Name(p) {
        assert pkgs[i] in pkgs;
      }
      forall n ensures HasName(pkgs + [p], n) <==> HasName(pkgs, n) || Name(p) == n {
        assert p in pkgs + [p];
        if HasName(pkgs, n) {
          var q :| q in pkgs && Name(q) == n;
          assert q in pkgs + [p];
        }
      }
    }
  }

  /** A package is kept exactly when nothing before it has its name. */
  lemma {:induction false} FirstOfNameIsKept(pkgs: seq<Path>, found: seq<Path>, i: nat)
    requires UniqueNames(pkgs) && i < |found| && !HasName(pkgs, Name(found[i])) && !HasName(found[..i], Name(found[i]))
    ensures found[i] in AddAll(pkgs, found)
    decreases |found|
  {
    AddKeepsFirst(pkgs, found[0]);
    if i == 0 {
      AddAllKeepsFirst(Add(pkgs, found[0]), found[1..]);
      assert Add(pkgs, found[0])[|pkgs|] == found[0];
    } else {
      assert found[..i] == [found[0]] + found[1..][..i - 1];
      NameOfFirst(found[0], found[1..][..i - 1], Name(found[i]));
      FirstOfNameIsKept(Add(pkgs, found[0]), found[1..], i - 1);
    }
  }

  // ---------------------------------------------------------------- which package of a name is met first

  /** A package that a crawl from a root finds: the root itself, or the end of a route from it. */
  ghost predicate Holds(root: Root, p: Path)
  {
    || (root.dir.isPackage && p == root.path)
    || exists r :: Route(root.dir, r) && PathOf(root.path, root.dir, r) == p
  }

  ghost predicate HoldsNamed(root: Root, n: string)
  {
    exists p :: Holds(root, p) && Name(p) == n
  }

  /**
   The order of two routes where they part: packages of one directory in reading order, then
   those in its subdirectories, the subdirectory read last first.
   */
  predicate Before(a: seq<nat>, b: seq<nat>)
  {
    && a != [] && b != []
    && if |a| == 1 then |b| > 1 || a[0] < b[0]
       else |b| > 1 && (a[0] > b[0] || (a[0] == b[0] && Before(a[1..], b[1..])))
  }

  ghost predicate NamedRoute(path: Path, d: Dir, r: seq<nat>, n: string)
  {
    Route(d, r) && Name(PathOf(path, d, r)) == n
  }

  /** The route of a name that comes before all others of that name. */
  ghost predicate FirstRoute(path: Path, d: Dir, r: seq<nat>, n: string)
  {
    NamedRoute(path, d, r, n) && forall r' :: NamedRoute(path, d, r', n) ==> r' == r || Before(r, r')
  }

  /** The package of its name that a root has to offer. */
  ghost predicate Offered(root: Root, p: Path)
  {
    || (root.dir.isPackage && p == root.path)
    || exists r :: FirstRoute(root.path, root.dir, r, Name(p)) && PathOf(root.path, root.dir, r) == p
  }

  /** `p` is the first path of its name in the list. */
  ghost predicate IsFirst(s: seq<Path>, p: Path)
  {
    exists k :: 0 <= k < |s| && s[k] == p && !HasName(s[..k], Name(p))
  }

  lemma FirstInConcat(a: seq<Path>, b: seq<Path>, p: Path)
    ensures IsFirst(a + b, p) <==> if HasName(a, Name(p)) then IsFirst(a, p) else IsFirst(b, p)
  {
    var s, n := a + b, Name(p);
    forall k | 0 <= k <= |s| ensures s[..k] == if k <= |a| then a[..k] else a + b[..k - |a|] {
    }
    forall k | 0 <= k < |a| && s[k] == p && !HasName(s[..k], n) ensures IsFirst(a, p) && HasName(a, n) {
      assert a[k] in a;
    }
    forall k | 0 <= k < |a| && a[k] == p && !HasName(a[..k], n) ensures IsFirst(s, p) {
      assert s[k] == p;
    }
    forall k | |a| <= k < |s| && s[k] == p && !HasName(s[..k], n) ensures !HasName(a, n) && IsFirst(b, p) {
      NamesInConcat(a, b[..k - |a|], n);
      assert b[k - |a|] == p;
    }
    forall k | 0 <= k < |b| && b[k] == p && !HasName(b[..k], n) && !HasName(a, n) ensures IsFirst(s, p) {
      NamesInConcat(a, b[..k], n);
      assert s[|a| + k] == p;
    }
  }

  /** The first listed subdirectory of a name. */
  lemma {:induction false} FirstListed(path: Path, d: Dir, k: nat, p: Path) returns (i: nat)
    requires k <= |d.children| && IsFirst(ListedUpTo(path, d, k), p)
    ensures i < k && Listed(d.children[i]) && path + [d.children[i].name] == p
    ensures forall j :: 0 <= j < i ==> !Listed(d.children[j]) || d.children[j].name != Name(p)
  {
    hide ListedUpTo, IsFirst, HasName;
    ListedStep(path, d, k, p);
    var c, before := d.children[k - 1], ListedUpTo(path, d, k - 1);
    var last := if Listed(c) then [path + [c.name]] else [];
    FirstInConcat(before, last, p);
    if HasName(before, Name(p)) {
      i := FirstListed(path, d, k - 1, p);
    } else {
      i := k - 1;
      FirstIsMember(last, p);
      forall j | 0 <= j < i && Listed(d.children[j]) ensures d.children[j].name != Name(p) {
        ListedAre(path, d, i, path + [d.children[j].name]);
        MemberHasName(before, path + [d.children[j].name]);
      }
    }
  }

  lemma ListedStep(path: Path, d: Dir, k: nat, p: Path)
    requires k <= |d.children| && IsFirst(ListedUpTo(path, d, k), p)
    ensures k > 0
    ensures var c := d.children[k - 1];
      ListedUpTo(path, d, k) == ListedUpTo(path, d, k - 1) + if Listed(c) then [path + [c.name]] else []
  {
  }

  lemma FirstIsMember(s: seq<Path>, p: Path)
    requires IsFirst(s, p)
    ensures p in s
  {
  }

  lemma MemberHasName(s: seq<Path>, p: Path)
    requires p in s
    ensures HasName(s, Name(p))
  {
  }

  /** The package of a name that is found first is the one at the end of the first route. */
  lemma {:induction false} FirstFound(path: Path, d: Dir, p: Path) returns (r: seq<nat>)
    requires !d.isPackage && IsFirst(Found(path, d), p)
    ensures FirstRoute(path, d, r, Name(p)) && PathOf(path, d, r) == p
    decreases d, |d.children| + 1
  {
    var n := |d.children|;
    FirstInConcat(ListedUpTo(path, d, n), FoundBelow(path, d, n), p);
    if HasName(ListedUpTo(path, d, n), Name(p)) {
      var i := FirstListed(path, d, n, p);
      r := [i];
      forall r' | NamedRoute(path, d, r', Name(p)) ensures r' == r || Before(r, r') {
        if |r'| == 1 && r'[0] != i {
          assert Listed(d.children[r'[0]]) && d.children[r'[0]].name == Name(p);
        }
      }
    } else {
      r := FirstBelow(path, d, n, p);
      forall r' | NamedRoute(path, d, r', Name(p)) ensures r' == r || Before(r, r') {
        if |r'| == 1 {
          ListedAre(path, d, n, PathOf(path, d, r'));
        }
      }
    }
  }

  /** The first route to a package of the name of `p` through the first `k` subdirectories leads to `p`. */
  ghost predicate FirstAmong(path: Path, d: Dir, k: nat, r: seq<nat>, p: Path)
  {
    && NamedRoute(path, d, r, Name(p)) && PathOf(path, d, r) == p && |r| > 1 && r[0] < k
    && forall r' :: NamedRoute(path, d, r', Name(p)) && |r'| > 1 && r'[0] < k ==> r' == r || Before(r, r')
  }

  lemma {:induction false} FirstBelow(path: Path, d: Dir, k: nat, p: Path) returns (r: seq<nat>)
    requires k <= |d.children| && !d.isPackage && IsFirst(FoundBelow(path, d, k), p)
    ensures FirstAmong(path, d, k, r, p)
    decreases d, k
  {
    hide Route, PathOf, IsFirst, Found, FoundBelow, Before, NamedRoute, FirstRoute, FirstAmong, HasName, Entered;
    SomethingBelow(path, d, k, p);
    var c := d.children[k - 1];
    var inside := if Entered(c) then Found(path + [c.name], c) else [];
    FoundBelowStep(path, d, k);
    EnteredIsNoPackage(c);
    FirstInConcat(inside, FoundBelow(path, d, k - 1), p);
    NoneIn(Name(p));
    if HasName(inside, Name(p)) {
      var rest := FirstFound(path + [c.name], c, p);
      r := [k - 1] + rest;
      FirstThrough(path, d, k - 1, rest, p);
    } else {
      r := FirstBelow(path, d, k - 1, p);
      NoneThrough(path, d, k - 1, r, p);
    }
  }

  lemma FoundBelowStep(path: Path, d: Dir, k: nat)
    requires 0 < k <= |d.children|
    ensures var c := d.children[k - 1];
      FoundBelow(path, d, k) == (if Entered(c) then Found(path + [c.name], c) else []) + FoundBelow(path, d, k - 1)
  {
  }

  lemma SomethingBelow(path: Path, d: Dir, k: nat, p: Path)
    requires k <= |d.children| && IsFirst(FoundBelow(path, d, k), p)
    ensures k > 0
  {
  }

  lemma EnteredIsNoPackage(d: Dir)
    ensures Entered(d) ==> !d.isPackage
  {
  }

  lemma NoneIn(n: string)
    ensures !HasName([], n)
  {
  }

  /** The first route inside the subdirectory that is searched first. */
  lemma FirstThrough(path: Path, d: Dir, i: nat, rest: seq<nat>, p: Path)
    requires i < |d.children| && !d.isPackage && Entered(d.children[i])
    requires var c := d.children[i]; FirstRoute(path + [c.name], c, rest, Name(p)) && PathOf(path + [c.name], c, rest) == p
    ensures FirstAmong(path, d, i + 1, [i] + rest, p)
  {
    hide Route, PathOf, Before;
    var c := d.children[i];
    RouteThrough(path, d, i, rest);
    forall r' | NamedRoute(path, d, r', Name(p)) && |r'| > 1 && r'[0] < i + 1 ensures r' == [i] + rest || Before([i] + rest, r') {
      if r'[0] == i {
        RouteInto(path, d, r');
        assert NamedRoute(path + [c.name], c, r'[1..], Name(p));
      }
      BeforeThrough(rest, r', i);
    }
  }

  lemma NoneThrough(path: Path, d: Dir, i: nat, r: seq<nat>, p: Path)
    requires i < |d.children| && FirstAmong(path, d, i, r, p)
    requires var c := d.children[i]; !(Entered(c) && HasName(Found(path + [c.name], c), Name(p)))
    ensures FirstAmong(path, d, i + 1, r, p)
  {
    hide Route, PathOf, Found;
    forall r' | NamedRoute(path, d, r', Name(p)) && |r'| > 1 ensures r'[0] != i {
      if r'[0] == i {
        RouteInto(path, d, r');
        RoutesAreFound(path + [d.children[i].name], d.children[i], r'[1..]);
      }
    }
  }

  lemma RouteThrough(path: Path, d: Dir, i: nat, rest: seq<nat>)
    requires i < |d.children| && !d.isPackage && Entered(d.children[i]) && Route(d.children[i], rest)
    ensures Route(d, [i] + rest) && PathOf(path, d, [i] + rest) == PathOf(path + [d.children[i].name], d.children[i], rest)
    ensures |rest| > 0
  {
    assert ([i] + rest)[1..] == rest;
  }

  lemma RouteInto(path: Path, d: Dir, r: seq<nat>)
    requires Route(d, r) && |r| > 1
    ensures r[0] < |d.children| && Entered(d.children[r[0]]) && Route(d.children[r[0]], r[1..])
    ensures PathOf(path, d, r) == PathOf(path + [d.children[r[0]].name], d.children[r[0]], r[1..])
  {
  }

  lemma BeforeThrough(rest: seq<nat>, r': seq<nat>, i: nat)
    requires rest != [] && |r'| > 1 && r'[0] <= i && (r'[0] == i ==> r'[1..] == rest || Before(rest, r'[1..]))
    ensures r' == [i] + rest || Before([i] + rest, r')
  {
    assert ([i] + rest)[1..] == rest;
    assert r' == [r'[0]] + r'[1..];
  }

  /** What is kept of a name is what was met first. */
  lemma KeptIsFirst(found: seq<Path>, p: Path)
    requires p in AddAll([], found)
    ensures IsFirst(found, p)
  {
    var kept, n := AddAll([], found), Name(p);
    AddAllKeepsFirst([], found);
    assert HasName(kept, n);
    assert HasName(found, n);
    var k := FirstPosition(found, n);
    FirstOfNameIsKept([], found, k);
    var i :| 0 <= i < |kept| && kept[i] == p;
    var j :| 0 <= j < |kept| && kept[j] == found[k];
    assert i == j;
  }

  lemma {:induction false} FirstPosition(s: seq<Path>, n: string) returns (k: nat)
    requires HasName(s, n)
    ensures k < |s| && Name(s[k]) == n && !HasName(s[..k], n)
  {
    var last := |s| - 1;
    assert s == s[..last] + [s[last]];
    if HasName(s[..last], n) {
      k := FirstPosition(s[..last], n);
      assert s[..last][..k] == s[..k];
    } else {
      k := last;
    }
  }

  // ---------------------------------------------------------------- several roots

  function AllFound(roots: seq<Root>): seq<Path>
  {
    if roots == [] then [] else Found(roots[0].path, roots[0].dir) + AllFound(roots[1..])
  }

  function AllRecords(o: Options, roots: seq<Root>): seq<Record>
  {
    if roots == [] then [] else Records(o, roots[0].path, roots[0].dir) + AllRecords(o, roots[1..])
  }

  predicate AllFit(roots: seq<Root>)
  {
    forall r <- roots :: Fits(r.path, r.dir)
  }

  /** A crawl of all roots gives up exactly when it would enter a directory that is too deep. */
  lemma {:induction false} RootsFind(o: Options, st: State, roots: seq<Root>)
    ensures CrawlRoots(o, st, roots).Some? <==> AllFit(roots)
    ensures AllFit(roots) ==>
      var st' := CrawlRoots(o, st, roots).value;
      st'.pkgs == AddAll(st.pkgs, AllFound(roots)) && st'.profile == st.profile + AllRecords(o, roots)
    decreases |roots|
  {
    hide CrawlDir, Found, Records, Fits, AddAll;
    if roots == [] {
      NothingAdded(st);
    } else {
      var r, rest := roots[0], roots[1..];
      CrawlFinds(o, st, r.path, r.dir);
      assert roots == [r] + rest;
      if Fits(r.path, r.dir) {
        var st' := CrawlDir(o, st, r.path, r.dir).value;
        RootsFind(o, st', rest);
        RootAdded(st, st', Found(r.path, r.dir), AllFound(rest), Records(o, r.path, r.dir), AllRecords(o, rest));
      }
    }
  }

  lemma NothingAdded(st: State)
    ensures AddAll(st.pkgs, []) == st.pkgs && st.profile + [] == st.profile
  {
  }

  lemma RootAdded(st: State, st': State, a: seq<Path>, b: seq<Path>, r: seq<Record>, s: seq<Record>)
    requires st'.pkgs == AddAll(st.pkgs, a) && st'.profile == st.profile + r
    ensures AddAll(st'.pkgs, b) == AddAll(st.pkgs, a + b) && st'.profile + s == st.profile + (r + s)
  {
    AddAllConcat(st.pkgs, a, b);
  }

  // ---------------------------------------------------------------- the crawler

  class Crawler {
    const options: Options
    var pkgs: seq<Path>
    var totalNumPkgs: nat
    var profile: seq<Record>

    constructor (options: Options)
      ensures this.options == options && pkgs == [] && totalNumPkgs == 0 && profile == []
    {
      this.options := options;
      pkgs, totalNumPkgs, profile := [], 0, [];
    }

    function Value(): State
      reads this
    {
      State(pkgs, totalNumPkgs, profile)
    }

    /** `add_package`. */
    method AddPackage(path: Path)
      modifies this
      ensures Value() == old(Value()).(pkgs := Add(old(pkgs), path))
    {
      for i := 0 to |pkgs|
        invariant Value() == old(Value())
        invariant forall j :: 0 <= j < i ==> Name(pkgs[j]) != Name(path)
      {
        if Name(pkgs[i]) == Name(path) {
          assert pkgs[i] in pkgs;
          return;
        }
      }
      pkgs := pkgs + [path];
    }

    /** Reading one directory: packages are listed, other subdirectories go to the front of the queue. */
    method ReadDirectory(path: Path, d: Dir, q: seq<Entry>) returns (q': seq<Entry>)
      modifies this
      ensures q' == Pushed(path, d, |d.children|) + q
      ensures Value() == Scanned(old(Value()), path, d, |d.children|)
    {
      hide Scanned, Add;
      q' := q;
      NothingScanned(Value(), path, d);
      for k := 0 to |d.children|
        invariant q' == Pushed(path, d, k) + q
        invariant Value() == Scanned(old(Value()), path, d, k)
      {
        var c := d.children[k];
        ScannedNext(old(Value()), path, d, k);
        if !Hidden(c) {
          if c.isPackage {
            totalNumPkgs := totalNumPkgs + 1;
            AddPackage(path + [c.name]);
          } else if !c.noSubdirs {
            q' := [Entry(path + [c.name], c, false, 0)] + q';
          }
        }
      }
    }

    /** The starting points, in order. */
    method Queue(rosRoot: Root, packagePath: seq<Root>) returns (q: seq<Entry>)
      ensures q == Entries(Starts(rosRoot, packagePath)) && forall e <- q :: !e.started
    {
      q := [Entry(rosRoot.path, rosRoot.dir, false, 0)];
      EntriesOfFirst(rosRoot, []);
      for i := 0 to |packagePath|
        invariant q == Entries([rosRoot] + Accepted(packagePath[..i])) && forall e <- q :: !e.started
      {
        var r := packagePath[i];
        AcceptedNext(rosRoot, packagePath, i);
        if r.dir.isPackage || !r.dir.noSubdirs {
          q := q + [Entry(r.path, r.dir, false, 0)];
        }
      }
      assert packagePath[..|packagePath|] == packagePath;
    }

    /**
     The deque loop of `crawl_for_packages`. It ends on every finite tree, comes to what the
     recursive crawl comes to, and reports failure exactly when a directory it would enter is
     too deep.
     */
    method CrawlForPackages(rosRoot: Root, packagePath: seq<Root>) returns (ok: bool)
      modifies this
      ensures var roots := Starts(rosRoot, packagePath);
        && (ok <==> AllFit(roots))
        && (ok ==> CrawlRoots(options, old(Value()).(pkgs := []), roots) == Some(Value()))
        && (ok ==> pkgs == AddAll([], AllFound(roots)) && UniqueNames(pkgs))
        && (ok ==> forall n :: HasName(pkgs, n) <==> HasName(AllFound(roots), n))
        && (ok ==> profile == old(profile) + AllRecords(options, roots))
      ensures ok ==> forall n :: HasName(pkgs, n) <==> NamedSomewhere(rosRoot, packagePath, n)
      ensures ok ==> forall p <- pkgs :: Wins(rosRoot, packagePath, p)
    {
      hide NamedSomewhere, Wins;
      hide CrawlRoots, Finish, AddAll, AllFit, AllFound, AllRecords, Scanned, Pushed, Recorded, QueueWeight, Entries, Starts, Marker, CrawlEntry;
      pkgs := [];
      ghost var st, roots := Value(), Starts(rosRoot, packagePath);
      var q := Queue(rosRoot, packagePath);
      FinishEntries(options, st, roots);
      RootsFind(options, st, roots);
      AddAllKeepsFirst([], AllFound(roots));
      while q != []
        invariant Finish(options, Value(), q) == CrawlRoots(options, st, roots)
        invariant Markers(options, q)
        decreases QueueWeight(q)
      {
        ghost var before := q;
        var e := q[0];
        q := q[1..];
        ghost var rest := q;
        assert before == [e] + rest;
        Popped(options, Value(), e, rest);
        if |e.path| > MAX_DIRECTORY_DEPTH {
          return false;
        }
        if e.dir.isPackage {
          AddPackage(e.path);
          continue;
        }
        if options.profiling {
          if e.started {
            var hasManifest := e.startNumPkgs < totalNumPkgs;
            if !options.zombieOnly || !hasManifest {
              profile := profile + [Record(e.path, hasManifest)];
            }
            continue;
          }
          q := [Entry(e.path, e.dir, true, totalNumPkgs)] + q;
        }
        Expanded(options, Value(), e, rest);
        ExpandedWeight(options, e, totalNumPkgs, rest);
        MarkersPushed(options, e, totalNumPkgs, rest);
        q := ReadDirectory(e.path, e.dir, q);
      }
      FinishedEmpty(options, Value());
      PrecedenceOfRoots(rosRoot, packagePath);
      ok := true;
    }
  }

  /** Roots of the search path that are neither packages nor marked are crawled, and packages are listed. */
  function Accepted(roots: seq<Root>): seq<Root>
  {
    if roots == [] then []
    else
      var r := roots[|roots| - 1];
      Accepted(roots[..|roots| - 1]) + if r.dir.isPackage || !r.dir.noSubdirs then [r] else []
  }

  lemma AcceptedNext(rosRoot: Root, roots: seq<Root>, i: nat)
    requires i < |roots|
    ensures var r, q := roots[i], Entries([rosRoot] + Accepted(roots[..i]));
      Entries([rosRoot] + Accepted(roots[..i + 1]))
      == if r.dir.isPackage || !r.dir.noSubdirs then q + [Entry(r.path, r.dir, false, 0)] else q
  {
    var r, accepted := roots[i], Accepted(roots[..i]);
    assert roots[..i + 1][..i] == roots[..i];
    if r.dir.isPackage || !r.dir.noSubdirs {
      EntriesConcat([rosRoot] + accepted, r);
      assert [rosRoot] + accepted + [r] == [rosRoot] + (accepted + [r]);
    } else {
      assert accepted + [] == accepted;
    }
  }

  function Starts(rosRoot: Root, packagePath: seq<Root>): seq<Root>
  {
    [rosRoot] + Accepted(packagePath)
  }

  lemma EntriesOfFirst(r: Root, rest: seq<Root>)
    ensures Entries([r] + rest) == [Entry(r.path, r.dir, false, 0)] + Entries(rest)
  {
    assert ([r] + rest)[1..] == rest;
  }

  lemma {:induction false} EntriesConcat(roots: seq<Root>, r: Root)
    ensures Entries(roots + [r]) == Entries(roots) + [Entry(r.path, r.dir, false, 0)]
    decreases |roots|
  {
    if roots == [] {
      EntriesOfFirst(r, []);
      assert roots + [r] == [r] + [];
    } else {
      EntriesConcat(roots[1..], r);
      assert roots + [r] == [roots[0]] + (roots[1..] + [r]);
      EntriesOfFirst(roots[0], roots[1..] + [r]);
    }
  }

  /** An entry of the search path that the crawl takes up: a package, or a directory without the marker. */
  predicate TakenUp(r: Root)
  {
    r.dir.isPackage || !r.dir.noSubdirs
  }

  ghost predicate NamedSomewhere(rosRoot: Root, packagePath: seq<Root>, n: string)
  {
    HoldsNamed(rosRoot, n) || exists i :: 0 <= i < |packagePath| && TakenUp(packagePath[i]) && HoldsNamed(packagePath[i], n)
  }

  /** No entry before position `i` has a package of that name. */
  ghost predicate NoneBefore(packagePath: seq<Root>, i: nat, n: string)
    requires i <= |packagePath|
  {
    forall j :: 0 <= j < i && TakenUp(packagePath[j]) ==> !HoldsNamed(packagePath[j], n)
  }

  /**
   The package of its name that is kept: from the ROS root if that has one, otherwise from the
   first entry of the search path that has one, and there the one met first.
   */
  ghost predicate Wins(rosRoot: Root, packagePath: seq<Root>, p: Path)
  {
    if HoldsNamed(rosRoot, Name(p)) then Offered(rosRoot, p)
    else exists i :: 0 <= i < |packagePath| && TakenUp(packagePath[i]) && Offered(packagePath[i], p)
                     && NoneBefore(packagePath, i, Name(p))
  }

  lemma FoundIsHeld(s: Root, p: Path)
    ensures p in Found(s.path, s.dir) <==> Holds(s, p)
  {
    if r :| Route(s.dir, r) && PathOf(s.path, s.dir, r) == p {
      RoutesAreFound(s.path, s.dir, r);
    }
    if p in Found(s.path, s.dir) && !s.dir.isPackage {
      var r := FoundHasRoute(s.path, s.dir, p);
    }
  }

  lemma FoundNamed(s: Root, n: string)
    ensures HasName(Found(s.path, s.dir), n) <==> HoldsNamed(s, n)
  {
    hide Found, Holds;
    forall p ensures p in Found(s.path, s.dir) <==> Holds(s, p) {
      FoundIsHeld(s, p);
    }
  }

  lemma FoundOffered(s: Root, p: Path)
    requires IsFirst(Found(s.path, s.dir), p)
    ensures Offered(s, p)
  {
    if !s.dir.isPackage {
      var r := FirstFound(s.path, s.dir, p);
    }
  }

  lemma {:induction false} AllFoundConcat(a: seq<Root>, b: seq<Root>)
    ensures AllFound(a + b) == AllFound(a) + AllFound(b)
    decreases |a|
  {
    hide Found;
    if a == [] {
      assert a + b == b;
    } else {
      AllFoundConcat(a[1..], b);
      assert (a + b)[0] == a[0] && (a + b)[1..] == a[1..] + b;
    }
  }

  lemma AllFoundOne(r: Root)
    ensures AllFound([r]) == Found(r.path, r.dir)
  {
    assert [r][1..] == [];
    assert Found(r.path, r.dir) + [] == Found(r.path, r.dir);
  }

  /** The entries of the search path one by one. */
  lemma {:induction false} PathNamed(packagePath: seq<Root>, n: string)
    ensures HasName(AllFound(Accepted(packagePath)), n) <==>
      exists i :: 0 <= i < |packagePath| && TakenUp(packagePath[i]) && HoldsNamed(packagePath[i], n)
    decreases |packagePath|
  {
    hide Found;
    if packagePath != [] {
      var r, front := packagePath[|packagePath| - 1], packagePath[..|packagePath| - 1];
      PathNamed(front, n);
      AcceptedFound(front, r);
      assert packagePath == front + [r];
      NamesInConcat(AllFound(Accepted(front)), Found(r.path, r.dir), n);
      FoundNamed(r, n);
    }
  }

  lemma AcceptedFound(front: seq<Root>, r: Root)
    ensures AllFound(Accepted(front + [r])) == AllFound(Accepted(front)) + if TakenUp(r) then Found(r.path, r.dir) else []
  {
    assert (front + [r])[..|front|] == front;
    AllFoundConcat(Accepted(front), [r]);
    AllFoundOne(r);
    assert Accepted(front) + [] == Accepted(front) && AllFound(Accepted(front)) + [] == AllFound(Accepted(front));
  }

  lemma {:induction false} PathOffers(packagePath: seq<Root>, p: Path) returns (i: nat)
    requires IsFirst(AllFound(Accepted(packagePath)), p)
    ensures i < |packagePath| && TakenUp(packagePath[i]) && Offered(packagePath[i], p) && NoneBefore(packagePath, i, Name(p))
    decreases |packagePath|
  {
    hide Found, Offered, IsFirst;
    assert packagePath != [] by { NothingFirst(p); }
    var r, front := packagePath[|packagePath| - 1], packagePath[..|packagePath| - 1];
    AcceptedFound(front, r);
    assert packagePath == front + [r];
    FirstInConcat(AllFound(Accepted(front)), if TakenUp(r) then Found(r.path, r.dir) else [], p);
    PathNamed(front, Name(p));
    if HasName(AllFound(Accepted(front)), Name(p)) {
      i := PathOffers(front, p);
    } else {
      i := |front|;
      NothingFirst(p);
      FoundOffered(r, p);
    }
  }

  lemma NothingFirst(p: Path)
    ensures !IsFirst([], p)
  {
  }

  /** The ROS root goes before the search path, and the search path goes from front to back. */
  lemma PrecedenceOfRoots(rosRoot: Root, packagePath: seq<Root>)
    ensures forall n :: HasName(AllFound(Starts(rosRoot, packagePath)), n) <==> NamedSomewhere(rosRoot, packagePath, n)
    ensures forall p <- AddAll([], AllFound(Starts(rosRoot, packagePath))) :: Wins(rosRoot, packagePath, p)
  {
    hide Found, AllFound, AddAll, Accepted, HoldsNamed, HasName, Offered, NoneBefore, IsFirst;
    var own, others := Found(rosRoot.path, rosRoot.dir), AllFound(Accepted(packagePath));
    AllFoundConcat([rosRoot], Accepted(packagePath));
    AllFoundOne(rosRoot);
    forall n ensures HasName(own + others, n) <==> NamedSomewhere(rosRoot, packagePath, n) {
      NamesInConcat(own, others, n);
      FoundNamed(rosRoot, n);
      PathNamed(packagePath, n);
    }
    forall p | p in AddAll([], own + others) ensures Wins(rosRoot, packagePath, p) {
      KeptIsFirst(own + others, p);
      FirstInConcat(own, others, p);
      FoundNamed(rosRoot, Name(p));
      if HasName(own, Name(p)) {
        FoundOffered(rosRoot, p);
      } else {
        var i := PathOffers(packagePath, p);
      }
    }
  }

  /** Markers are for directories that were entered, while profiling. */
  predicate Markers(o: Options, q: seq<Entry>)
  {
    forall e <- q :: e.started ==> o.profiling && |e.path| <= MAX_DIRECTORY_DEPTH && !e.dir.isPackage
  }

  lemma Popped(o: Options, st: State, e: Entry, rest: seq<Entry>)
    ensures QueueWeight(rest) < QueueWeight([e] + rest)
    ensures Finish(o, st, [e] + rest) ==
      if e.started then Finish(o, Recorded(o, st, e.path, e.startNumPkgs < st.totalNumPkgs), rest)
      else if |e.path| > MAX_DIRECTORY_DEPTH then None
      else if e.dir.isPackage then Finish(o, st.(pkgs := Add(st.pkgs, e.path)), rest)
      else Finish(o, st, [e] + rest)
    ensures Recorded(o, st, e.path, e.startNumPkgs < st.totalNumPkgs)
      == if o.profiling && (!o.zombieOnly || !(e.startNumPkgs < st.totalNumPkgs))
         then st.(profile := st.profile + [Record(e.path, e.startNumPkgs < st.totalNumPkgs)]) else st
    ensures Markers(o, [e] + rest) ==> Markers(o, rest) && Markers(o, [e])
  {
    FinishFirst(o, st, e, rest);
    assert ([e] + rest)[1..] == rest;
    assert e in [e] + rest && forall x <- rest :: x in [e] + rest;
  }

  lemma {:induction false} PushedMarkers(o: Options, path: Path, d: Dir, k: nat)
    requires k <= |d.children|
    ensures Markers(o, Pushed(path, d, k))
  {
    if k > 0 {
      PushedMarkers(o, path, d, k - 1);
    }
  }

  lemma MarkersPushed(o: Options, e: Entry, total: nat, rest: seq<Entry>)
    requires Markers(o, rest) && |e.path| <= MAX_DIRECTORY_DEPTH && !e.dir.isPackage
    ensures Markers(o, Pushed(e.path, e.dir, |e.dir.children|) + (Marker(o, e, total) + rest))
    ensures Marker(o, e, total) + rest == if o.profiling then [Entry(e.path, e.dir, true, total)] + rest else rest
  {
    PushedMarkers(o, e.path, e.dir, |e.dir.children|);
  }

  lemma FinishedEmpty(o: Options, st: State)
    ensures Finish(o, st, []) == Some(st)
  {
  }

  /**
   The names listed by a crawl that succeeds: of starting points that are packages, and of
   the packages at the end of a route down from a starting point.
   */
  lemma {:induction false} NamesListed(roots: seq<Root>, n: string)
    ensures HasName(AllFound(roots), n) <==>
      exists s <- roots ::
        || (s.dir.isPackage && Name(s.path) == n)
        || exists r :: Route(s.dir, r) && Name(PathOf(s.path, s.dir, r)) == n
    decreases |roots|
  {
    if roots != [] {
      var s, rest := roots[0], roots[1..];
      assert roots == [s] + rest;
      NamesListed(rest, n);
      NamesInConcat(Found(s.path, s.dir), AllFound(rest), n);
      NamesOfRoot(s, n);
    }
  }

  lemma NamesInConcat(a: seq<Path>, b: seq<Path>, n: string)
    ensures HasName(a + b, n) <==> HasName(a, n) || HasName(b, n)
  {
    assert forall p :: p in a + b <==> p in a || p in b;
  }

  lemma NamesOfRoot(s: Root, n: string)
    ensures HasName(Found(s.path, s.dir), n) <==>
      || (s.dir.isPackage && Name(s.path) == n)
      || exists r :: Route(s.dir, r) && Name(PathOf(s.path, s.dir, r)) == n
  {
    var found := Found(s.path, s.dir);
    if HasName(found, n) && !s.dir.isPackage {
      var p :| p in found && Name(p) == n;
      var r := FoundHasRoute(s.path, s.dir, p);
    }
    forall r | Route(s.dir, r) && Name(PathOf(s.path, s.dir, r)) == n ensures HasName(found, n) {
      RoutesAreFound(s.path, s.dir, r);
    }
    if s.dir.isPackage {
      assert found[0] == s.path;
    }
  }
}
