/** Shortest import paths (findImportPath in packages/code/src/analysis/RecursiveScout.ts). */
module ImportPaths {
  import opened Common
  import opened Scouts

  /** The dependency lists of a built graph. */
  type Graph = map<File, seq<File>>

  datatype Item = Item(file: File, path: seq<File>)

  ghost predicate Link(g: Graph, a: File, b: File) {
    a in g && b in g[a]
  }

  ghost predicate IsPath(g: Graph, w: seq<File>) {
    w != [] && forall i :: 0 < i < |w| ==> Link(g, w[i - 1], w[i])
  }

  ghost predicate Joins(g: Graph, w: seq<File>, a: File, b: File) {
    IsPath(g, w) && w[0] == a && w[|w| - 1] == b
  }

  /** A shortest path between two files. */
  ghost predicate Shortest(g: Graph, w: seq<File>, a: File, b: File) {
    Joins(g, w, a, b) && forall v :: Joins(g, v, a, b) ==> |w| <= |v|
  }

  /** The items pushed for one expanded file. */
  function Pushes(deps: seq<File>, path: seq<File>, visited: set<File>): seq<Item> {
    if deps == [] then []
    else (if deps[0] !in visited then [Item(deps[0], path + [deps[0]])] else []) + Pushes(deps[1..], path, visited)
  }

  lemma {:induction false} PushesSpec(deps: seq<File>, path: seq<File>, visited: set<File>)
    ensures forall e :: e in Pushes(deps, path, visited) ==>
              e.file in deps && e.file !in visited && e.path == path + [e.file]
    ensures forall d :: d in deps && d !in visited ==> Item(d, path + [d]) in Pushes(deps, path, visited)
  {
    if deps != [] {
      PushesSpec(deps[1..], path, visited);
      forall d ensures d in deps <==> d == deps[0] || d in deps[1..] {
        InSplit(deps, d);
      }
    }
  }

  /** `d` has been visited, or is queued, with a path of at most n files. */
  ghost predicate Within(lev: map<File, nat>, queue: seq<Item>, d: File, n: nat) {
    (d in lev && lev[d] <= n) || exists e :: e in queue && e.file == d && |e.path| <= n
  }

  /** Queued paths are real, their lengths never fall and span at most two values. */
  ghost predicate QueueOk(g: Graph, from: File, queue: seq<Item>) {
    && (forall e :: e in queue ==> Joins(g, e.path, from, e.file))
    && (forall i, j :: 0 <= i <= j < |queue| ==> |queue[i].path| <= |queue[j].path| <= |queue[i].path| + 1)
  }

  /** `lev` records the length at which each file was visited; what a visited file
      imports is visited or queued at most one step later. */
  ghost predicate BfsInv(g: Graph, from: File, to: File, lev: map<File, nat>, queue: seq<Item>) {
    && QueueOk(g, from, queue)
    && to !in lev
    && (forall v, e :: v in lev && e in queue ==> lev[v] <= |e.path|)
    && (forall v, d :: v in lev && Link(g, v, d) ==> Within(lev, queue, d, lev[v] + 1))
    && Within(lev, queue, from, 1)
  }

  /** On any path from the start, each file is visited in time or a queued path is short enough. */
  lemma {:induction false} Frontier(g: Graph, from: File, to: File, lev: map<File, nat>, queue: seq<Item>, w: seq<File>)
    requires BfsInv(g, from, to, lev, queue) && IsPath(g, w) && w[0] == from
    ensures (w[|w| - 1] in lev && lev[w[|w| - 1]] <= |w|) || exists e :: e in queue && |e.path| <= |w|
  {
    if |w| > 1 {
      var front := w[..|w| - 1];
      forall i | 0 < i < |front| ensures Link(g, front[i - 1], front[i]) {
        assert Link(g, w[i - 1], w[i]);
      }
      Frontier(g, from, to, lev, queue, front);
      assert Link(g, w[|w| - 2], w[|w| - 1]);
    }
  }

  /** The first queued item that names the target carries a shortest path. */
  lemma FoundShortest(g: Graph, from: File, to: File, lev: map<File, nat>, queue: seq<Item>)
    requires BfsInv(g, from, to, lev, queue) && queue != [] && queue[0].file == to
    ensures Shortest(g, queue[0].path, from, to)
  {
    assert queue[0] in queue;
    forall v | Joins(g, v, from, to) ensures |queue[0].path| <= |v| {
      Frontier(g, from, to, lev, queue, v);
      var e :| e in queue && |e.path| <= |v|;
      var j :| 0 <= j < |queue| && queue[j] == e;
    }
  }

  lemma ExhaustedUnreachable(g: Graph, from: File, to: File, lev: map<File, nat>)
    requires BfsInv(g, from, to, lev, [])
    ensures forall v :: !Joins(g, v, from, to)
  {
    forall v | Joins(g, v, from, to) ensures false {
      Frontier(g, from, to, lev, [], v);
    }
  }

  lemma WithinMono(lev: map<File, nat>, queue: seq<Item>, lev': map<File, nat>, queue': seq<Item>, d: File, n: nat)
    requires Within(lev, queue, d, n)
    requires forall v :: v in lev ==> v in lev' && lev'[v] == lev[v]
    requires forall e :: e in queue ==> e in queue' || (e.file in lev' && lev'[e.file] <= |e.path|)
    ensures Within(lev', queue', d, n)
  {
  }

  /** Dropping a queued item whose file was already visited. */
  lemma DropStep(g: Graph, from: File, to: File, lev: map<File, nat>, queue: seq<Item>)
    requires BfsInv(g, from, to, lev, queue) && queue != [] && queue[0].file in lev
    ensures BfsInv(g, from, to, lev, queue[1..])
  {
    var rest := queue[1..];
    forall e ensures e in queue <==> e == queue[0] || e in rest {
      InSplit(queue, e);
    }
    forall v, d | v in lev && Link(g, v, d) ensures Within(lev, rest, d, lev[v] + 1) {
      WithinMono(lev, queue, lev, rest, d, lev[v] + 1);
    }
    WithinMono(lev, queue, lev, rest, from, 1);
  }

  lemma ExpandQueue(g: Graph, from: File, queue: seq<Item>, pushed: seq<Item>)
    requires QueueOk(g, from, queue) && queue != []
    requires forall e :: e in pushed ==> Link(g, queue[0].file, e.file) && e.path == queue[0].path + [e.file]
    ensures QueueOk(g, from, queue[1..] + pushed)
    ensures forall e :: e in queue[1..] + pushed ==> |e.path| >= |queue[0].path|
  {
    var head, q := queue[0], queue[1..] + pushed;
    assert head in queue;
    forall e | e in q ensures Joins(g, e.path, from, e.file) && |e.path| >= |head.path| {
      if e in pushed {
        forall i | 0 < i < |e.path| ensures Link(g, e.path[i - 1], e.path[i]) {
          if i < |head.path| {
            assert Link(g, head.path[i - 1], head.path[i]);
          }
        }
      } else {
        assert e in queue[1..];
        var j :| 0 <= j < |queue[1..]| && queue[1..][j] == e;
        assert queue[j + 1] == e && e in queue;
      }
    }
    forall i, j | 0 <= i <= j < |q| ensures |q[i].path| <= |q[j].path| <= |q[i].path| + 1 {
      assert q[i] in q && q[j] in q;
      assert j >= |queue| - 1 ==> q[j] in pushed;
      assert i >= |queue| - 1 ==> q[i] in pushed;
      assert i < |queue| - 1 ==> q[i] == queue[i + 1];
      assert j < |queue| - 1 ==> q[j] == queue[j + 1];
    }
  }

  /** Visiting a new file and queueing its unvisited imports. */
  /** What the expanded file imports has been visited or was just queued. */
  lemma ExpandedWithin(lev: map<File, nat>, queue: seq<Item>, v: File, d: File, path: seq<File>, pushed: seq<Item>)
    requires v in lev && lev[v] == |path| && forall e :: e in pushed ==> e in queue
    requires d in lev ==> lev[d] <= |path|
    requires d !in lev ==> Item(d, path + [d]) in pushed
    ensures Within(lev, queue, d, lev[v] + 1)
  {
    if d !in lev {
      assert Item(d, path + [d]) in queue;
    }
  }

  lemma ExpandStep(g: Graph, from: File, to: File, lev: map<File, nat>, queue: seq<Item>, pushed: seq<Item>)
    requires BfsInv(g, from, to, lev, queue) && queue != []
    requires queue[0].file !in lev && queue[0].file != to
    requires pushed == if queue[0].file in g
                       then Pushes(g[queue[0].file], queue[0].path, lev.Keys + {queue[0].file}) else []
    ensures BfsInv(g, from, to, lev[queue[0].file := |queue[0].path|], queue[1..] + pushed)
  {
    var v0, path := queue[0].file, queue[0].path;
    var lev', q := lev[v0 := |path|], queue[1..] + pushed;
    assert queue[0] in queue;
    if v0 in g {
      PushesSpec(g[v0], path, lev.Keys + {v0});
    }
    forall e | e in pushed ensures Link(g, v0, e.file) && e.path == path + [e.file] {}
    ExpandQueue(g, from, queue, pushed);
    hide QueueOk, Pushes;
    forall e | e in queue ensures e in q || (e.file in lev' && lev'[e.file] <= |e.path|) {
      InSplit(queue, e);
    }
    hide Within;
    forall v, d | v in lev' && Link(g, v, d) ensures Within(lev', q, d, lev'[v] + 1) {
      if v == v0 {
        ExpandedWithin(lev', q, v0, d, path, pushed);
      } else {
        WithinMono(lev, queue, lev', q, d, lev[v] + 1);
      }
    }
    WithinMono(lev, queue, lev', q, from, 1);
  }

  /** A shortest import path, or none exactly when the target is unreachable. */
  method FindImportPath(graph: Graph, from: File, to: File) returns (r: Option<seq<File>>)
    ensures r.Some? ==> Shortest(graph, r.value, from, to)
    ensures r.None? <==> forall v :: !Joins(graph, v, from, to)
  {
    hide BfsInv, Pushes, Shortest;
    var visited: set<File> := {};
    var queue := [Item(from, [from])];
    ghost var lev: map<File, nat> := map[];
    StartInv(graph, from, to);
    while queue != []
      invariant BfsInv(graph, from, to, lev, queue) && lev.Keys == visited
      decreases graph.Keys - visited, |queue|
    {
      var next := queue[0];
      if next.file == to {
        FoundShortest(graph, from, to, lev, queue);
        ShortestJoins(graph, next.path, from, to);
        return Some(next.path);
      }
      if next.file in visited {
        DropStep(graph, from, to, lev, queue);
        queue := queue[1..];
        continue;
      }
      visited := visited + {next.file};
      var pushed := [];
      if next.file in graph {
        pushed := PushAll(graph[next.file], next.path, visited);
      }
      ExpandStep(graph, from, to, lev, queue, pushed);
      lev := lev[next.file := |next.path|];
      queue := queue[1..] + pushed;
    }
    ExhaustedUnreachable(graph, from, to, lev);
    r := None;
  }

  lemma StartInv(g: Graph, from: File, to: File)
    ensures BfsInv(g, from, to, map[], [Item(from, [from])])
  {
    var queue := [Item(from, [from])];
    assert Item(from, [from]) in queue;
  }

  lemma ShortestJoins(g: Graph, w: seq<File>, a: File, b: File)
    requires Shortest(g, w, a, b)
    ensures Joins(g, w, a, b)
  {
  }

  method PushAll(deps: seq<File>, path: seq<File>, visited: set<File>) returns (pushed: seq<Item>)
    ensures pushed == Pushes(deps, path, visited)
  {
    pushed := [];
    assert deps[0..] == deps;
    for i := 0 to |deps|
      invariant pushed + Pushes(deps[i..], path, visited) == Pushes(deps, path, visited)
    {
      assert deps[i..][1..] == deps[i + 1..];
      if deps[i] !in visited {
        pushed := pushed + [Item(deps[i], path + [deps[i]])];
      }
    }
  }
}
