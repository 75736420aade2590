/** Bounded neighbourhood traversal of the knowledge graph (packages/graph/src/graph-impl.ts). */
module Neighborhoods {
  import opened Common
  import opened Sorting

  /** Node ids, numbered in the order in which the program sorts them. */
  type Id = int

  /** What a node carries under the source key of its metadata. */
  datatype Tag = Untagged | TextTag(text: string) | PrintedTag(text: string)

  datatype Node = Node(kind: string, tag: Tag)

  /** `adj` lists, in any order, what shares an edge with each node in either direction. */
  datatype Graph = Graph(nodes: map<Id, Node>, adj: map<Id, seq<Id>>)

  ghost predicate Linked(g: Graph, u: Id, v: Id) {
    u in g.adj && v in g.adj[u]
  }

  ghost predicate Valid(g: Graph) {
    && g.adj.Keys == g.nodes.Keys
    && (forall u :: u in g.adj ==> NoDup(g.adj[u]))
    && (forall u, v :: Linked(g, u, v) ==> v in g.nodes && Linked(g, v, u))
  }

  ghost predicate IsWalk(g: Graph, w: seq<Id>) {
    forall i :: 0 < i < |w| ==> Linked(g, w[i - 1], w[i])
  }

  /** A walk of at most k edges from a seed. */
  ghost predicate Reaches(g: Graph, seeds: set<Id>, w: seq<Id>, v: Id, k: nat) {
    0 < |w| <= k + 1 && w[0] in seeds && w[|w| - 1] == v && IsWalk(g, w)
  }

  /** v is at most k hops from some seed. */
  ghost predicate Near(g: Graph, seeds: set<Id>, v: Id, k: nat) {
    exists w :: Reaches(g, seeds, w, v, k)
  }

  lemma NearSeed(g: Graph, seeds: set<Id>, v: Id)
    ensures Near(g, seeds, v, 0) <==> v in seeds
  {
    if v in seeds {
      assert Reaches(g, seeds, [v], v, 0);
    }
  }

  lemma NearMono(g: Graph, seeds: set<Id>, v: Id, k: nat, l: nat)
    requires Near(g, seeds, v, k) && k <= l
    ensures Near(g, seeds, v, l)
  {
    var w :| Reaches(g, seeds, w, v, k);
    assert Reaches(g, seeds, w, v, l);
  }

  /** One hop further: near already, or next to something near. */
  lemma NearNext(g: Graph, seeds: set<Id>, v: Id, k: nat)
    ensures Near(g, seeds, v, k + 1) <==>
            Near(g, seeds, v, k) || exists u :: Near(g, seeds, u, k) && Linked(g, u, v)
  {
    if Near(g, seeds, v, k) {
      NearMono(g, seeds, v, k, k + 1);
    }
    if exists u :: Near(g, seeds, u, k) && Linked(g, u, v) {
      var u :| Near(g, seeds, u, k) && Linked(g, u, v);
      var w :| Reaches(g, seeds, w, u, k);
      assert Reaches(g, seeds, w + [v], v, k + 1);
    }
    if Near(g, seeds, v, k + 1) {
      var w :| Reaches(g, seeds, w, v, k + 1);
      if |w| == 1 {
        assert Reaches(g, seeds, w, v, k);
      } else {
        var u := w[|w| - 2];
        assert Reaches(g, seeds, w[..|w| - 1], u, k);
        assert Linked(g, u, w[|w| - 1]);
      }
    }
  }

  // ----- level-by-level discovery -----

  function SortIds(s: seq<Id>): seq<Id> {
    Sort((a: Id, b: Id) => a <= b, s)
  }

  lemma SortIdsKeeps(s: seq<Id>)
    ensures forall y :: y in SortIds(s) <==> y in s
  {
    SortKeeps((a: Id, b: Id) => a <= b, s);
  }

  lemma SortIdsAscends(s: seq<Id>)
    ensures forall i, j :: 0 <= i < j < |SortIds(s)| ==> SortIds(s)[i] <= SortIds(s)[j]
    ensures NoDup(s) ==> NoDup(SortIds(s))
    ensures |SortIds(s)| == |s|
  {
    var before := (a: Id, b: Id) => a <= b;
    SortInOrder(before, s);
    SortKeeps(before, s);
    assert |multiset(SortIds(s))| == |multiset(s)|;
    forall i, j | 0 <= i < j < |SortIds(s)| ensures SortIds(s)[i] <= SortIds(s)[j] {
      assert before(SortIds(s)[i], SortIds(s)[j]);
    }
    if NoDup(s) {
      SortNoDup(before, s);
    }
  }

  /** What shares an edge with a node, in id order. */
  function Adj(g: Graph, u: Id): seq<Id> {
    if u in g.adj then SortIds(g.adj[u]) else []
  }

  lemma AdjSpec(g: Graph, u: Id)
    ensures forall v :: v in Adj(g, u) <==> Linked(g, u, v)
    ensures forall i, j :: 0 <= i < j < |Adj(g, u)| ==> Adj(g, u)[i] <= Adj(g, u)[j]
    ensures u in g.adj ==> |Adj(g, u)| == |g.adj[u]|
  {
    if u in g.adj {
      SortIdsKeeps(g.adj[u]);
      SortIdsAscends(g.adj[u]);
    }
  }

  /** The neighbours that were not visited, in order. */
  function NewIn(adj: seq<Id>, visited: set<Id>): seq<Id> {
    if adj == [] then []
    else if adj[0] in visited then NewIn(adj[1..], visited)
    else [adj[0]] + NewIn(adj[1..], visited + {adj[0]})
  }

  /** What one pass over the frontier discovers, in order. */
  function LevelNext(g: Graph, frontier: seq<Id>, visited: set<Id>): seq<Id> {
    if frontier == [] then []
    else
      var found := NewIn(Adj(g, frontier[0]), visited);
      found + LevelNext(g, frontier[1..], visited + Elems(found))
  }

  /** Everything discovered in `hops` passes, in order. */
  function Levels(g: Graph, frontier: seq<Id>, visited: set<Id>, hops: nat): seq<Id>
    decreases hops
  {
    if hops == 0 || frontier == [] then []
    else
      var next := LevelNext(g, SortIds(frontier), visited);
      next + Levels(g, next, visited + Elems(next), hops - 1)
  }

  lemma {:induction false} NewInSpec(adj: seq<Id>, visited: set<Id>)
    ensures forall v :: v in NewIn(adj, visited) <==> v in adj && v !in visited
    ensures NoDup(NewIn(adj, visited))
    decreases |adj|
  {
    if adj != [] {
      var tail := adj[1..];
      forall v ensures v in adj <==> v == adj[0] || v in tail {
        InSplit(adj, v);
      }
      if adj[0] in visited {
        NewInSpec(tail, visited);
      } else {
        NewInSpec(tail, visited + {adj[0]});
      }
    }
  }

  ghost predicate NextTo(g: Graph, frontier: seq<Id>, v: Id) {
    exists u :: u in frontier && Linked(g, u, v)
  }

  lemma {:induction false} LevelNextSpec(g: Graph, frontier: seq<Id>, visited: set<Id>)
    ensures forall v :: v in LevelNext(g, frontier, visited) <==> v !in visited && NextTo(g, frontier, v)
    ensures NoDup(LevelNext(g, frontier, visited))
    decreases |frontier|
  {
    if frontier != [] {
      var u, tail := frontier[0], frontier[1..];
      var adj := Adj(g, u);
      AdjSpec(g, u);
      var found := NewIn(adj, visited);
      NewInSpec(adj, visited);
      LevelNextSpec(g, tail, visited + Elems(found));
      assert forall v :: v in found ==> v in visited + Elems(found);
      NoDupConcat(found, LevelNext(g, tail, visited + Elems(found)));
      forall v ensures NextTo(g, frontier, v) <==> v in adj || NextTo(g, tail, v) {
        NextToSplit(g, frontier, v);
      }
    }
  }

  lemma NextToSplit(g: Graph, frontier: seq<Id>, v: Id)
    requires frontier != []
    ensures NextTo(g, frontier, v) <==> Linked(g, frontier[0], v) || NextTo(g, frontier[1..], v)
  {
    var u0 := frontier[0];
    assert u0 in frontier;
    if NextTo(g, frontier, v) {
      var u :| u in frontier && Linked(g, u, v);
      InSplit(frontier, u);
    }
    if NextTo(g, frontier[1..], v) {
      var u :| u in frontier[1..] && Linked(g, u, v);
      InSplit(frontier, u);
    }
  }

  /** `visited` is the ball of radius hop and `frontier` its outermost shell. */
  ghost predicate BallInv(g: Graph, seeds: set<Id>, visited: set<Id>, frontier: seq<Id>, hop: nat) {
    && (forall v :: v in visited <==> Near(g, seeds, v, hop))
    && (forall v :: v in frontier <==> Near(g, seeds, v, hop) && (hop > 0 ==> !Near(g, seeds, v, hop - 1)))
  }

  lemma BallStart(g: Graph, seeds: set<Id>, frontier: seq<Id>)
    requires forall v :: v in frontier <==> v in seeds
    ensures BallInv(g, seeds, seeds, frontier, 0)
  {
    forall v ensures Near(g, seeds, v, 0) <==> v in seeds {
      NearSeed(g, seeds, v);
    }
  }

  /** What is next to the shell is exactly what comes into the ball. */
  lemma ShellNext(g: Graph, seeds: set<Id>, visited: set<Id>, frontier: seq<Id>, hop: nat, v: Id)
    requires BallInv(g, seeds, visited, frontier, hop)
    ensures Near(g, seeds, v, hop + 1) <==> v in visited || NextTo(g, frontier, v)
  {
    NearNext(g, seeds, v, hop);
    if NextTo(g, frontier, v) {
      var u :| u in frontier && Linked(g, u, v);
      assert Near(g, seeds, u, hop);
    }
    if exists u :: Near(g, seeds, u, hop) && Linked(g, u, v) {
      var u :| Near(g, seeds, u, hop) && Linked(g, u, v);
      if u !in frontier {
        NearNext(g, seeds, v, hop - 1);
        assert Near(g, seeds, v, hop);
      }
    }
  }

  lemma BallStep(g: Graph, seeds: set<Id>, visited: set<Id>, frontier: seq<Id>, hop: nat)
    requires BallInv(g, seeds, visited, frontier, hop)
    ensures var next := LevelNext(g, SortIds(frontier), visited);
            BallInv(g, seeds, visited + Elems(next), next, hop + 1)
  {
    var sorted := SortIds(frontier);
    var next := LevelNext(g, sorted, visited);
    SortIdsKeeps(frontier);
    LevelNextSpec(g, sorted, visited);
    forall v ensures v in visited + Elems(next) <==> Near(g, seeds, v, hop + 1) {
      ShellNext(g, seeds, visited, frontier, hop, v);
      assert NextTo(g, sorted, v) <==> NextTo(g, frontier, v);
    }
    forall v ensures v in next <==> Near(g, seeds, v, hop + 1) && !Near(g, seeds, v, hop) {
      ShellNext(g, seeds, visited, frontier, hop, v);
      assert NextTo(g, sorted, v) <==> NextTo(g, frontier, v);
    }
  }

  /** Once the shell is empty the ball stops growing. */
  lemma {:induction false} BallSaturates(g: Graph, seeds: set<Id>, visited: set<Id>, hop: nat, k: nat, v: Id)
    requires BallInv(g, seeds, visited, [], hop) && hop <= k && Near(g, seeds, v, k)
    ensures v in visited
    decreases k
  {
    if hop < k {
      NearNext(g, seeds, v, k - 1);
      if !Near(g, seeds, v, k - 1) {
        var u :| Near(g, seeds, u, k - 1) && Linked(g, u, v);
        BallSaturates(g, seeds, visited, hop, k - 1, u);
        NearNext(g, seeds, v, hop);
        ShellNext(g, seeds, visited, [], hop, v);
      } else {
        BallSaturates(g, seeds, visited, hop, k - 1, v);
      }
    }
  }

  /** What a traversal discovers, each once: the ball of that radius without `visited`. */
  ghost predicate Discovers(g: Graph, seeds: set<Id>, visited: set<Id>, found: seq<Id>, radius: nat) {
    NoDup(found) && forall v :: v in found <==> v !in visited && Near(g, seeds, v, radius)
  }

  lemma DiscoversMore(g: Graph, seeds: set<Id>, visited: set<Id>, next: seq<Id>, rest: seq<Id>, hop: nat, radius: nat)
    requires NoDup(next) && hop <= radius && Discovers(g, seeds, visited + Elems(next), rest, radius)
    requires forall v :: v in next ==> v !in visited && Near(g, seeds, v, hop)
    ensures Discovers(g, seeds, visited, next + rest, radius)
  {
    hide Near;
    forall v | v in next ensures Near(g, seeds, v, radius) {
      NearMono(g, seeds, v, hop, radius);
    }
    assert forall v :: v in next ==> v in visited + Elems(next) && v !in rest;
    NoDupConcat(next, rest);
  }

  /** The traversal discovers exactly the ball, each node once. */
  lemma {:induction false} LevelsExact(g: Graph, seeds: set<Id>, visited: set<Id>, frontier: seq<Id>, hop: nat,
                                       hops: nat)
    requires BallInv(g, seeds, visited, frontier, hop)
    ensures Discovers(g, seeds, visited, Levels(g, frontier, visited, hops), hop + hops)
    decreases hops
  {
    hide SortIds, LevelNext, NextTo, Near;
    if hops == 0 {
    } else if frontier == [] {
      forall v | Near(g, seeds, v, hop + hops) ensures v in visited {
        BallSaturates(g, seeds, visited, hop, hop + hops, v);
      }
    } else {
      var next := LevelNext(g, SortIds(frontier), visited);
      BallStep(g, seeds, visited, frontier, hop);
      LevelNextSpec(g, SortIds(frontier), visited);
      LevelsExact(g, seeds, visited + Elems(next), next, hop + 1, hops - 1);
      assert forall v :: v in next ==> Near(g, seeds, v, hop + 1);
      hide Discovers, BallInv;
      DiscoversMore(g, seeds, visited, next, Levels(g, next, visited + Elems(next), hops - 1), hop + 1, hop + hops);
    }
  }

  // ----- the order of discovery -----

  /** `h` is the least number of hops from a seed to v. */
  ghost predicate HopDistance(g: Graph, seeds: set<Id>, v: Id, h: nat) {
    Near(g, seeds, v, h) && (h > 0 ==> !Near(g, seeds, v, h - 1))
  }

  lemma DistanceAtMost(g: Graph, seeds: set<Id>, v: Id, h: nat, k: nat)
    requires HopDistance(g, seeds, v, h) && Near(g, seeds, v, k)
    ensures h <= k
  {
    if k < h {
      NearMono(g, seeds, v, k, h - 1);
    }
  }

  lemma {:induction false} NewInAscends(adj: seq<Id>, visited: set<Id>)
    requires forall i, j :: 0 <= i < j < |adj| ==> adj[i] <= adj[j]
    ensures forall i, j :: 0 <= i < j < |NewIn(adj, visited)| ==> NewIn(adj, visited)[i] < NewIn(adj, visited)[j]
    decreases |adj|
  {
    if adj != [] {
      var x, tail := adj[0], adj[1..];
      if x in visited {
        NewInAscends(tail, visited);
      } else {
        var rest := NewIn(tail, visited + {x});
        NewInAscends(tail, visited + {x});
        NewInSpec(tail, visited + {x});
        forall j | 0 <= j < |rest| ensures x < rest[j] {
          var y := rest[j];
          assert y in rest && y in tail;
          var k :| 0 <= k < |tail| && tail[k] == y;
          assert adj[k + 1] == y;
        }
      }
    }
  }

  /** The first node of the frontier that v is next to. */
  ghost predicate FoundBy(g: Graph, frontier: seq<Id>, v: Id, k: nat) {
    k < |frontier| && Linked(g, frontier[k], v) && forall l :: 0 <= l < k ==> !Linked(g, frontier[l], v)
  }

  ghost predicate FoundBefore(g: Graph, frontier: seq<Id>, v: Id, w: Id) {
    forall k: nat, l: nat :: FoundBy(g, frontier, v, k) && FoundBy(g, frontier, w, l) ==> k < l || (k == l && v < w)
  }

  lemma FoundInTail(g: Graph, frontier: seq<Id>, v: Id, w: Id)
    requires frontier != [] && !Linked(g, frontier[0], v) && !Linked(g, frontier[0], w)
    requires FoundBefore(g, frontier[1..], v, w)
    ensures FoundBefore(g, frontier, v, w)
  {
    forall k: nat, l: nat | FoundBy(g, frontier, v, k) && FoundBy(g, frontier, w, l)
      ensures k < l || (k == l && v < w)
    {
      FoundTail(g, frontier, v, k);
      FoundTail(g, frontier, w, l);
    }
  }

  lemma FoundTail(g: Graph, frontier: seq<Id>, v: Id, k: nat)
    requires FoundBy(g, frontier, v, k) && !Linked(g, frontier[0], v)
    ensures k > 0 && FoundBy(g, frontier[1..], v, k - 1)
  {
    var tail := frontier[1..];
    assert tail[k - 1] == frontier[k];
    forall l | 0 <= l < k - 1 ensures !Linked(g, tail[l], v) {
      assert tail[l] == frontier[l + 1];
    }
  }

  ghost predicate InPassOrder(g: Graph, frontier: seq<Id>, s: seq<Id>) {
    forall i, j :: 0 <= i < j < |s| ==> FoundBefore(g, frontier, s[i], s[j])
  }

  /** A pass discovers by the position of the discoverer, then by id. */
  lemma {:induction false} LevelNextOrder(g: Graph, frontier: seq<Id>, visited: set<Id>)
    ensures InPassOrder(g, frontier, LevelNext(g, frontier, visited))
    decreases |frontier|
  {
    if frontier != [] {
      var u, tail := frontier[0], frontier[1..];
      var found := NewIn(Adj(g, u), visited);
      var rest := LevelNext(g, tail, visited + Elems(found));
      var r := found + rest;
      AdjSpec(g, u);
      NewInSpec(Adj(g, u), visited);
      NewInAscends(Adj(g, u), visited);
      LevelNextSpec(g, tail, visited + Elems(found));
      LevelNextOrder(g, tail, visited + Elems(found));
      forall i, j | 0 <= i < j < |r| ensures FoundBefore(g, frontier, r[i], r[j]) {
        var v, w := r[i], r[j];
        if i < |found| {
          assert v in found && Linked(g, u, v);
          if j >= |found| {
            assert w in rest && !Linked(g, u, w);
          } else {
            assert w in found && Linked(g, u, w);
          }
        } else {
          assert v in rest && w in rest;
          assert FoundBefore(g, tail, rest[i - |found|], rest[j - |found|]);
          FoundInTail(g, frontier, v, w);
        }
      }
    }
  }

  /** The least id among the nodes at distance h that v is next to. */
  ghost predicate LeastParent(g: Graph, seeds: set<Id>, v: Id, h: nat, p: Id) {
    && HopDistance(g, seeds, p, h) && Linked(g, p, v)
    && forall u :: HopDistance(g, seeds, u, h) && Linked(g, u, v) ==> p <= u
  }

  /** v comes before w: it is nearer, or as near and next to a smaller node of the level
      before, or next to the same and smaller itself. */
  ghost predicate Earlier(g: Graph, seeds: set<Id>, v: Id, w: Id) {
    forall h: nat, k: nat :: HopDistance(g, seeds, v, h) && HopDistance(g, seeds, w, k) ==>
      h < k || (h == k && h > 0 && SmallerParent(g, seeds, v, w, h - 1))
  }

  ghost predicate SmallerParent(g: Graph, seeds: set<Id>, v: Id, w: Id, h: nat) {
    forall p, q :: LeastParent(g, seeds, v, h, p) && LeastParent(g, seeds, w, h, q) ==> p < q || (p == q && v < w)
  }

  ghost predicate InDiscoveryOrder(g: Graph, seeds: set<Id>, s: seq<Id>) {
    forall i, j :: 0 <= i < j < |s| ==> Earlier(g, seeds, s[i], s[j])
  }

  lemma ParentIsFirst(g: Graph, seeds: set<Id>, visited: set<Id>, frontier: seq<Id>, hop: nat, v: Id, p: Id)
    returns (k: nat)
    requires BallInv(g, seeds, visited, frontier, hop) && LeastParent(g, seeds, v, hop, p)
    requires forall i, j :: 0 <= i < j < |frontier| ==> frontier[i] < frontier[j]
    ensures FoundBy(g, frontier, v, k) && frontier[k] == p
  {
    assert p in frontier;
    k :| 0 <= k < |frontier| && frontier[k] == p;
    forall l | 0 <= l < k ensures !Linked(g, frontier[l], v) {
      assert frontier[l] in frontier && frontier[l] < p;
      assert HopDistance(g, seeds, frontier[l], hop);
    }
  }

  lemma SameLevel(g: Graph, seeds: set<Id>, visited: set<Id>, sorted: seq<Id>, hop: nat, v: Id, w: Id)
    requires BallInv(g, seeds, visited, sorted, hop) && FoundBefore(g, sorted, v, w)
    requires forall i, j :: 0 <= i < j < |sorted| ==> sorted[i] < sorted[j]
    ensures SmallerParent(g, seeds, v, w, hop)
  {
    forall p, q | LeastParent(g, seeds, v, hop, p) && LeastParent(g, seeds, w, hop, q)
      ensures p < q || (p == q && v < w)
    {
      var k := ParentIsFirst(g, seeds, visited, sorted, hop, v, p);
      var l := ParentIsFirst(g, seeds, visited, sorted, hop, w, q);
    }
  }

  /** One level before the deeper ones. */
  lemma LevelsAppend(g: Graph, seeds: set<Id>, visited: set<Id>, sorted: seq<Id>, hop: nat, next: seq<Id>,
                     rest: seq<Id>)
    requires BallInv(g, seeds, visited, sorted, hop) && InPassOrder(g, sorted, next)
    requires BallInv(g, seeds, visited + Elems(next), next, hop + 1) && InDiscoveryOrder(g, seeds, rest)
    requires forall i, j :: 0 <= i < j < |sorted| ==> sorted[i] < sorted[j]
    requires forall v :: v in rest ==> v !in visited + Elems(next)
    ensures InDiscoveryOrder(g, seeds, next + rest)
  {
    hide Near, Earlier, BallInv, FoundBefore;
    var all := next + rest;
    forall i, j | 0 <= i < j < |all| ensures Earlier(g, seeds, all[i], all[j]) {
      var v, w := all[i], all[j];
      if i < |next| {
        assert v in next;
        ShellDistance(g, seeds, visited + Elems(next), next, hop + 1, v);
        if j < |next| {
          assert w in next;
          ShellDistance(g, seeds, visited + Elems(next), next, hop + 1, w);
          SameLevel(g, seeds, visited, sorted, hop, v, w);
          LevelEarlier(g, seeds, v, w, hop);
        } else {
          assert w in rest && w !in visited + Elems(next);
          BallHolds(g, seeds, visited + Elems(next), next, hop + 1, w);
          FartherLater(g, seeds, v, w, hop + 1);
        }
      } else {
        assert Earlier(g, seeds, rest[i - |next|], rest[j - |next|]);
      }
    }
  }

  /** Discovery goes by distance, then by least parent, then by id. */
  lemma {:induction false} LevelsOrder(g: Graph, seeds: set<Id>, visited: set<Id>, frontier: seq<Id>, hop: nat,
                                       hops: nat)
    requires BallInv(g, seeds, visited, frontier, hop) && NoDup(frontier)
    ensures InDiscoveryOrder(g, seeds, Levels(g, frontier, visited, hops))
    decreases hops
  {
    if hops > 0 && frontier != [] {
      hide LevelNext, NextTo, Near, InDiscoveryOrder, InPassOrder, SortIds;
      var sorted := SortIds(frontier);
      var next := LevelNext(g, sorted, visited);
      var rest := Levels(g, next, visited + Elems(next), hops - 1);
      var all := next + rest;
      BallStep(g, seeds, visited, frontier, hop);
      SortedBall(g, seeds, visited, frontier, hop);
      SortIdsAscends(frontier);
      LevelNextSpec(g, sorted, visited);
      LevelNextOrder(g, sorted, visited);
      LevelsExact(g, seeds, visited + Elems(next), next, hop + 1, hops - 1);
      LevelsOrder(g, seeds, visited + Elems(next), next, hop + 1, hops - 1);
      LevelsAppend(g, seeds, visited, sorted, hop, next, rest);
    }
  }

  lemma ShellDistance(g: Graph, seeds: set<Id>, visited: set<Id>, frontier: seq<Id>, hop: nat, v: Id)
    requires BallInv(g, seeds, visited, frontier, hop) && v in frontier
    ensures HopDistance(g, seeds, v, hop) && v in visited
  {
  }

  lemma BallHolds(g: Graph, seeds: set<Id>, visited: set<Id>, frontier: seq<Id>, hop: nat, v: Id)
    requires BallInv(g, seeds, visited, frontier, hop)
    ensures v in visited <==> Near(g, seeds, v, hop)
  {
  }

  lemma SortedBall(g: Graph, seeds: set<Id>, visited: set<Id>, frontier: seq<Id>, hop: nat)
    requires BallInv(g, seeds, visited, frontier, hop)
    ensures BallInv(g, seeds, visited, SortIds(frontier), hop)
  {
    SortIdsKeeps(frontier);
  }

  lemma LevelEarlier(g: Graph, seeds: set<Id>, v: Id, w: Id, hop: nat)
    requires HopDistance(g, seeds, v, hop + 1) && HopDistance(g, seeds, w, hop + 1)
    requires SmallerParent(g, seeds, v, w, hop)
    ensures Earlier(g, seeds, v, w)
  {
    forall h: nat, k: nat | HopDistance(g, seeds, v, h) && HopDistance(g, seeds, w, k) ensures h == k == hop + 1 {
      DistanceAtMost(g, seeds, v, h, hop + 1);
      DistanceAtMost(g, seeds, v, hop + 1, h);
      DistanceAtMost(g, seeds, w, k, hop + 1);
      DistanceAtMost(g, seeds, w, hop + 1, k);
    }
  }

  lemma FartherLater(g: Graph, seeds: set<Id>, v: Id, w: Id, hop: nat)
    requires Near(g, seeds, v, hop) && !Near(g, seeds, w, hop)
    ensures Earlier(g, seeds, v, w)
  {
    forall h: nat, k: nat | HopDistance(g, seeds, v, h) && HopDistance(g, seeds, w, k) ensures h < k {
      DistanceAtMost(g, seeds, v, h, hop);
      if k <= hop {
        NearMono(g, seeds, w, k, hop);
      }
    }
  }

  // ----- neighbors -----

  function Filter(accept: Id -> bool, s: seq<Id>): seq<Id> {
    if s == [] then [] else (if accept(s[0]) then [s[0]] else []) + Filter(accept, s[1..])
  }

  lemma {:induction false} FilterSpec(accept: Id -> bool, s: seq<Id>)
    ensures forall v :: v in Filter(accept, s) <==> v in s && accept(v)
    ensures |Filter(accept, s)| <= |s|
  {
    if s != [] {
      FilterSpec(accept, s[1..]);
      forall v ensures v in s <==> v == s[0] || v in s[1..] {
        InSplit(s, v);
      }
    }
  }

  function Take(s: seq<Id>, n: int): seq<Id> {
    if n < 0 then [] else if n > |s| then s else s[..n]
  }

  /** Push accepted ids until the output holds `cap` of them. */
  function Fill(accept: Id -> bool, cap: int, out: seq<Id>, found: seq<Id>): seq<Id>
    decreases |found|
  {
    if found == [] || |out| >= cap then out
    else Fill(accept, cap, if accept(found[0]) then out + [found[0]] else out, found[1..])
  }

  lemma {:induction false} FillConcat(accept: Id -> bool, cap: int, out: seq<Id>, a: seq<Id>, b: seq<Id>)
    ensures Fill(accept, cap, out, a + b) == Fill(accept, cap, Fill(accept, cap, out, a), b)
    decreases |a|
  {
    if a == [] || |out| >= cap {
      assert a == [] ==> a + b == b;
    } else {
      assert (a + b)[1..] == a[1..] + b;
      FillConcat(accept, cap, if accept(a[0]) then out + [a[0]] else out, a[1..], b);
    }
  }

  lemma {:induction false} FillTake(accept: Id -> bool, cap: int, out: seq<Id>, found: seq<Id>)
    requires |out| <= cap
    ensures Fill(accept, cap, out, found) == Take(out + Filter(accept, found), cap)
    decreases |found|
  {
    if found == [] {
      assert out + [] == out;
    } else if |out| >= cap {
      assert (out + Filter(accept, found))[..cap] == out;
    } else if accept(found[0]) {
      FillTake(accept, cap, out + [found[0]], found[1..]);
      assert out + Filter(accept, found) == out + [found[0]] + Filter(accept, found[1..]);
    } else {
      FillTake(accept, cap, out, found[1..]);
      assert Filter(accept, found) == Filter(accept, found[1..]);
    }
  }

  function Cap(limit: int): (r: int)
    ensures r >= 1
  {
    if limit < 1 then 1 else limit
  }

  /** The specification of `neighbors`: accepted discoveries, cut at the limit. The limit
      is tested after a push, so a limit below one still lets one node through. */
  function NeighborsOf(g: Graph, seed: Id, hops: int, limit: int, accept: Id -> bool): seq<Id> {
    if seed !in g.nodes || hops < 0 then []
    else Take(Filter(accept, Levels(g, [seed], {seed}, hops)), Cap(limit))
  }

  lemma NewInHead(adj: seq<Id>, visited: set<Id>)
    requires adj != []
    ensures NewIn(adj, visited) == if adj[0] in visited then NewIn(adj[1..], visited)
                                   else [adj[0]] + NewIn(adj[1..], visited + {adj[0]})
  {
  }

  lemma NewInDone(visited: set<Id>)
    ensures NewIn([], visited) == []
  {
  }

  lemma FillHead(accept: Id -> bool, cap: int, out: seq<Id>, x: Id, rest: seq<Id>)
    ensures |out| >= cap ==> Fill(accept, cap, out, [x] + rest) == out
    ensures |out| < cap ==>
              Fill(accept, cap, out, [x] + rest) == Fill(accept, cap, if accept(x) then out + [x] else out, rest)
  {
    assert ([x] + rest)[1..] == rest;
  }

  /** One adjacency list. If the output is not full afterwards, everything new was seen. */
  method ScanAdjacent(adj: seq<Id>, visited: set<Id>, out: seq<Id>, limit: int, accept: Id -> bool)
    returns (visited': set<Id>, found: seq<Id>, out': seq<Id>)
    requires |out| < Cap(limit)
    ensures out' == Fill(accept, Cap(limit), out, NewIn(adj, visited))
    ensures |out'| < Cap(limit) ==> found == NewIn(adj, visited) && visited' == visited + Elems(found)
  {
    hide NewIn, Fill;
    visited', found, out' := visited, [], out;
    assert adj[0..] == adj && [] + NewIn(adj, visited) == NewIn(adj, visited);
    for i := 0 to |adj|
      invariant |out'| < Cap(limit) && visited' == visited + Elems(found)
      invariant found + NewIn(adj[i..], visited') == NewIn(adj, visited)
      invariant Fill(accept, Cap(limit), out', NewIn(adj[i..], visited')) ==
                Fill(accept, Cap(limit), out, NewIn(adj, visited))
    {
      var candidate := adj[i];
      assert adj[i..][0] == candidate && adj[i..][1..] == adj[i + 1..];
      NewInHead(adj[i..], visited');
      if candidate in visited' {
        continue;
      }
      ghost var rest := NewIn(adj[i + 1..], visited' + {candidate});
      FillHead(accept, Cap(limit), out', candidate, rest);
      assert found + ([candidate] + rest) == found + [candidate] + rest;
      visited' := visited' + {candidate};
      found := found + [candidate];
      if accept(candidate) {
        out' := out' + [candidate];
        if |out'| >= limit {
          FillFull(accept, Cap(limit), out', rest);
          return;
        }
      }
    }
    NewInDone(visited');
    FillEmpty(accept, Cap(limit), out');
    assert adj[|adj|..] == [] && found + [] == found;
  }

  /** One pass over the sorted frontier. */
  method ScanLevel(g: Graph, ordered: seq<Id>, visited: set<Id>, out: seq<Id>, limit: int, accept: Id -> bool)
    returns (visited': set<Id>, next: seq<Id>, out': seq<Id>)
    requires |out| < Cap(limit)
    ensures out' == Fill(accept, Cap(limit), out, LevelNext(g, ordered, visited))
    ensures |out'| < Cap(limit) ==> next == LevelNext(g, ordered, visited) && visited' == visited + Elems(next)
  {
    hide *;
    visited', next, out' := visited, [], out;
    ghost var all := LevelNext(g, ordered, visited);
    ghost var filled := Fill(accept, Cap(limit), out, all);
    ListedEmpty();
    assert ordered[0..] == ordered && [] + all == all && visited + {} == visited;
    for i := 0 to |ordered|
      invariant |out'| < Cap(limit) && visited' == visited + Elems(next)
      invariant next + LevelNext(g, ordered[i..], visited') == all
      invariant Fill(accept, Cap(limit), out', LevelNext(g, ordered[i..], visited')) == filled
    {
      var current := ordered[i];
      assert ordered[i..][0] == current && ordered[i..][1..] == ordered[i + 1..];
      LevelNextHead(g, ordered[i..], visited');
      var adj := Adj(g, current);
      ghost var new' := NewIn(adj, visited');
      ghost var rest := LevelNext(g, ordered[i + 1..], visited' + Elems(new'));
      FillConcat(accept, Cap(limit), out', new', rest);
      var visited1, found, out1 := ScanAdjacent(adj, visited', out', limit, accept);
      if |out1| >= Cap(limit) {
        FillFull(accept, Cap(limit), out1, rest);
        out' := out1;
        return;
      }
      ListedConcat(next, found);
      assert next + (found + rest) == next + found + rest;
      visited', out' := visited1, out1;
      next := next + found;
    }
    LevelNextDone(g, visited');
    FillEmpty(accept, Cap(limit), out');
    assert ordered[|ordered|..] == [] && next + [] == next;
  }

  lemma ListedEmpty()
    ensures Elems<Id>([]) == {}
  {
  }

  lemma LevelNextDone(g: Graph, visited: set<Id>)
    ensures LevelNext(g, [], visited) == []
  {
  }

  lemma LevelNextHead(g: Graph, frontier: seq<Id>, visited: set<Id>)
    requires frontier != []
    ensures var found := NewIn(Adj(g, frontier[0]), visited);
            LevelNext(g, frontier, visited) == found + LevelNext(g, frontier[1..], visited + Elems(found))
  {
  }

  lemma ListedConcat(a: seq<Id>, b: seq<Id>)
    ensures Elems(a + b) == Elems(a) + Elems(b)
  {
  }

  lemma FillFull(accept: Id -> bool, cap: int, out: seq<Id>, found: seq<Id>)
    requires |out| >= cap
    ensures Fill(accept, cap, out, found) == out
  {
  }

  /** The nodes within `hops` of the seed that pass the filters, in discovery order. */
  method Neighbors(g: Graph, seed: Id, hops: int, limit: int, accept: Id -> bool) returns (out: seq<Id>)
    ensures out == NeighborsOf(g, seed, hops, limit, accept)
  {
    out := [];
    if seed !in g.nodes || hops <= 0 {
      return;
    }
    var visited, frontier := {seed}, [seed];
    ghost var all := Levels(g, frontier, visited, hops);
    FillTake(accept, Cap(limit), [], all);
    assert [] + Filter(accept, all) == Filter(accept, all);
    hide Fill, Take, Filter, LevelNext;
    for hop := 0 to hops
      invariant |out| < Cap(limit)
      invariant Fill(accept, Cap(limit), out, Levels(g, frontier, visited, hops - hop)) ==
                Fill(accept, Cap(limit), [], all)
    {
      if frontier == [] {
        break;
      }
      var ordered := SortIds(frontier);
      ghost var level := LevelNext(g, ordered, visited);
      ghost var rest := Levels(g, level, visited + Elems(level), hops - hop - 1);
      assert Levels(g, frontier, visited, hops - hop) == level + rest;
      FillConcat(accept, Cap(limit), out, level, rest);
      var visited1, next, out1 := ScanLevel(g, ordered, visited, out, limit, accept);
      if |out1| >= Cap(limit) {
        FillFull(accept, Cap(limit), out1, rest);
        return out1;
      }
      visited, frontier, out := visited1, next, out1;
    }
    FillEmpty(accept, Cap(limit), out);
  }

  lemma FillEmpty(accept: Id -> bool, cap: int, out: seq<Id>)
    ensures Fill(accept, cap, out, []) == out
  {
  }

  /** All nodes within `hops` of the seed but the seed itself that pass the filters. */
  function AllNeighbors(g: Graph, seed: Id, hops: nat, accept: Id -> bool): seq<Id> {
    Filter(accept, Levels(g, [seed], {seed}, hops))
  }

  /** The unlimited result is exactly the ball without its centre, filtered; a limit of
      k >= 1 gives its first k nodes, a smaller one still its first node. */
  lemma NeighborsExact(g: Graph, seed: Id, hops: nat, accept: Id -> bool, limit: int)
    requires seed in g.nodes
    ensures var all, r := AllNeighbors(g, seed, hops, accept), NeighborsOf(g, seed, hops, limit, accept);
            && (forall v :: v in all <==> v != seed && Near(g, {seed}, v, hops) && accept(v))
            && r <= all
            && (limit >= 1 ==> |r| == if limit < |all| then limit else |all|)
            && (limit < 1 ==> |r| == if 1 < |all| then 1 else |all|)
  {
    BallStart(g, {seed}, [seed]);
    LevelsExact(g, {seed}, {seed}, [seed], 0, hops);
    FilterSpec(accept, Levels(g, [seed], {seed}, hops));
  }

  lemma {:induction false} FilterKeepsOrder(g: Graph, seeds: set<Id>, accept: Id -> bool, s: seq<Id>)
    requires InDiscoveryOrder(g, seeds, s)
    ensures InDiscoveryOrder(g, seeds, Filter(accept, s))
  {
    hide Earlier;
    if s != [] {
      var r := Filter(accept, s[1..]);
      assert InDiscoveryOrder(g, seeds, s[1..]);
      FilterKeepsOrder(g, seeds, accept, s[1..]);
      FilterSpec(accept, s[1..]);
      forall j | 0 <= j < |r| ensures Earlier(g, seeds, s[0], r[j]) {
        var x := r[j];
        assert x in r && x in s[1..];
        var k :| 0 <= k < |s[1..]| && s[1..][k] == x;
        assert s[k + 1] == x;
      }
    }
  }

  /** The result comes nearest first; within a level, by the least node of the level before
      that discovers it, and then by id. So a limit keeps the nodes that come first. */
  lemma NeighborsOrdered(g: Graph, seed: Id, hops: nat, accept: Id -> bool)
    ensures InDiscoveryOrder(g, {seed}, AllNeighbors(g, seed, hops, accept))
  {
    BallStart(g, {seed}, [seed]);
    LevelsOrder(g, {seed}, {seed}, [seed], 0, hops);
    FilterKeepsOrder(g, {seed}, accept, Levels(g, [seed], {seed}, hops));
  }
}
