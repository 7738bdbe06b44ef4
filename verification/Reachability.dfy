/** scripts/check-reachability.js: which library files no entry point requires. */
module Reachability {
  import opened Lists
  import opened StringSort

  type File = string

  /** The files each file requires; a file outside the map requires nothing. */
  type Graph = map<File, seq<File>>

  function RequiredFiles(graph: Graph, file: File): seq<File> {
    if file in graph then graph[file] else []
  }

  // ---- reachability by paths ----

  /** A chain of requires from the first file to the last. */
  ghost predicate IsPath(graph: Graph, path: seq<File>) {
    path != [] && forall i :: 0 <= i < |path| - 1 ==> path[i] in graph && path[i + 1] in graph[path[i]]
  }

  ghost predicate PathTo(graph: Graph, entries: seq<File>, path: seq<File>, file: File) {
    IsPath(graph, path) && path[0] in entries && path[|path| - 1] == file
  }

  ghost predicate Reachable(graph: Graph, entries: seq<File>, file: File) {
    exists path :: PathTo(graph, entries, path, file)
  }

  lemma ReachableStep(graph: Graph, entries: seq<File>, file: File, next: File)
    requires Reachable(graph, entries, file) && next in RequiredFiles(graph, file)
    ensures Reachable(graph, entries, next)
  {
    var path :| PathTo(graph, entries, path, file);
    assert PathTo(graph, entries, path + [next], next);
  }

  /** A set that holds the entries and is closed under requires holds every reachable file. */
  lemma {:induction false} ClosedHoldsPath(graph: Graph, entries: seq<File>, seen: set<File>, path: seq<File>)
    requires forall f :: f in entries ==> f in seen
    requires forall f, g :: f in seen && g in RequiredFiles(graph, f) ==> g in seen
    requires IsPath(graph, path) && path[0] in entries
    ensures path[|path| - 1] in seen
    decreases |path|
  {
    var n := |path| - 1;
    if n > 0 {
      ClosedHoldsPath(graph, entries, seen, path[..n]);
      assert path[n] in RequiredFiles(graph, path[n - 1]);
    }
  }

  lemma ClosedHoldsReachable(graph: Graph, entries: seq<File>, seen: set<File>)
    requires forall f :: f in entries ==> f in seen
    requires forall f, g :: f in seen && g in RequiredFiles(graph, f) ==> g in seen
    ensures forall f :: Reachable(graph, entries, f) ==> f in seen
  {
    forall f | Reachable(graph, entries, f) ensures f in seen {
      var path :| PathTo(graph, entries, path, f);
      ClosedHoldsPath(graph, entries, seen, path);
    }
  }

  // ---- the worklist ----

  /** Every file the walk can meet: the entries and whatever a file requires. */
  ghost function Universe(graph: Graph, entries: seq<File>): set<File> {
    (set f | f in entries) + (set f, g | f in graph && g in graph[f] :: g)
  }

  /** What holds between two rounds of the walk. */
  ghost predicate Walking(graph: Graph, entries: seq<File>, seen: set<File>, queue: seq<File>) {
    && seen <= Universe(graph, entries)
    && (forall f :: f in queue ==> f in Universe(graph, entries))
    && (forall f :: f in seen || f in queue ==> Reachable(graph, entries, f))
    && (forall f :: f in entries ==> f in seen || f in queue)
    && (forall f, g :: f in seen && g in RequiredFiles(graph, f) ==> g in seen || g in queue)
  }

  lemma WalkStart(graph: Graph, entries: seq<File>)
    ensures Walking(graph, entries, {}, entries)
  {
    forall f | f in entries ensures Reachable(graph, entries, f) {
      assert PathTo(graph, entries, [f], f);
    }
  }

  lemma WalkSkips(graph: Graph, entries: seq<File>, seen: set<File>, rest: seq<File>, file: File)
    requires Walking(graph, entries, seen, rest + [file]) && file in seen
    ensures Walking(graph, entries, seen, rest)
  {
    assert forall f :: f in rest + [file] <==> f in rest || f == file;
  }

  lemma VisitStaysClosed(graph: Graph, entries: seq<File>, seen: set<File>, rest: seq<File>, file: File,
      required: seq<File>)
    requires required == RequiredFiles(graph, file)
    requires forall f :: f in entries ==> f in seen || f in rest + [file]
    requires forall f, g :: f in seen && g in RequiredFiles(graph, f) ==> g in seen || g in rest + [file]
    ensures forall f :: f in entries ==> f in seen + {file} || f in rest + required
    ensures forall f, g ::
      f in seen + {file} && g in RequiredFiles(graph, f) ==> g in seen + {file} || g in rest + required
  {
  }

  lemma VisitStaysReachable(graph: Graph, entries: seq<File>, seen: set<File>, rest: seq<File>, file: File,
      required: seq<File>)
    requires required == RequiredFiles(graph, file)
    requires Walking(graph, entries, seen, rest + [file])
    ensures forall f :: f in rest + required || f == file ==>
      f in Universe(graph, entries) && Reachable(graph, entries, f)
  {
    assert file in rest + [file];
    forall f | f in rest ensures f in Universe(graph, entries) && Reachable(graph, entries, f) {
      assert f in rest + [file];
    }
    forall g | g in required ensures g in Universe(graph, entries) && Reachable(graph, entries, g) {
      ReachableStep(graph, entries, file, g);
    }
  }

  lemma WalkVisits(graph: Graph, entries: seq<File>, seen: set<File>, rest: seq<File>, file: File)
    requires Walking(graph, entries, seen, rest + [file])
    ensures Walking(graph, entries, seen + {file}, rest + RequiredFiles(graph, file))
  {
    VisitStaysClosed(graph, entries, seen, rest, file, RequiredFiles(graph, file));
    VisitStaysReachable(graph, entries, seen, rest, file, RequiredFiles(graph, file));
  }

  method CollectSeen(graph: Graph, entries: seq<File>) returns (seen: set<File>)
    ensures forall f :: f in seen <==> Reachable(graph, entries, f)
  {
    seen := {};
    var queue := entries;
    WalkStart(graph, entries);
    while |queue| > 0
      invariant Walking(graph, entries, seen, queue)
      decreases Universe(graph, entries) - seen, |queue|
    {
      var file := queue[|queue| - 1];
      ghost var before := queue;
      queue := queue[..|queue| - 1];
      assert before == queue + [file];
      if file in seen {
        WalkSkips(graph, entries, seen, queue, file);
        continue;
      }
      WalkVisits(graph, entries, seen, queue, file);
      seen := seen + {file};
      queue := queue + RequiredFiles(graph, file);
    }
    ClosedHoldsReachable(graph, entries, seen);
  }

  function Unseen(files: seq<File>, seen: set<File>): seq<File> {
    Without(files, f => f in seen)
  }

  /** The report, sorted: exactly the library files without a path from an entry, as often as they are listed. */
  method FindUnreachable(graph: Graph, entries: seq<File>, libraryFiles: seq<File>) returns (unreachable: seq<File>)
    ensures forall f ::
      multiset(unreachable)[f] == if Reachable(graph, entries, f) then 0 else multiset(libraryFiles)[f]
    ensures Sorted(unreachable)
  {
    var seen := CollectSeen(graph, entries);
    unreachable := Sort(Unseen(libraryFiles, seen));
    SortSorts(Unseen(libraryFiles, seen));
    forall f ensures multiset(unreachable)[f] == if Reachable(graph, entries, f) then 0 else multiset(libraryFiles)[f] {
      WithoutCounts(libraryFiles, g => g in seen, f);
    }
  }
}
