/** Source-weighted retrieval (packages/graph/src/retrieval.ts). */
module Retrieval {
  import opened Common
  import opened Sorting
  import opened Neighborhoods
  import Limits

  /** Configured weights are JavaScript numbers; arithmetic on them is exact here. */
  type Number = Limits.Number

  datatype Sources = Sources(weights: map<string, Number>, defaultWeight: Option<Number>, dropZero: bool)

  datatype Query = Query(seeds: seq<Id>, sources: Sources, maxHops: int, hopDecay: Number,
                         kinds: Option<set<string>>, includeSeeds: bool, limit: int)

  datatype Scored = Scored(id: Id, score: real, hops: nat, proximity: real, source: string, sourceWeight: real)

  /** The tag under the source key if it is usable, else the node kind. */
  function ResolveSource(n: Node): string {
    match n.tag
    case TextTag(t) => if |t| > 0 then t else n.kind
    case PrintedTag(t) => t
    case Untagged => n.kind
  }

  /** What the configuration says about a source: its own weight, else the default, else one. */
  function Configured(source: string, s: Sources): Number {
    if source in s.weights then s.weights[source]
    else if s.defaultWeight.Some? then s.defaultWeight.value
    else Limits.Finite(1.0)
  }

  /** A weight is a finite non-negative multiplier; anything else counts as zero. */
  function WeightForSource(source: string, s: Sources): (w: real)
    ensures w >= 0.0
    ensures w > 0.0 ==> Configured(source, s) == Limits.Finite(w)
    ensures w == 0.0 ==> var n := Configured(source, s); n.Finite? ==> n.r <= 0.0
  {
    var raw := Configured(source, s);
    if !raw.Finite? || raw.r < 0.0 then 0.0 else raw.r
  }

  /** Clamp the decay into (0, 1]: too large counts as one, no positive number as a half. */
  function ClampDecay(d: Number): (r: real)
    ensures 0.0 < r <= 1.0
    ensures d.Finite? && 0.0 < d.r ==> r == 1.0 <= d.r || r == d.r
    ensures !d.Finite? || d.r <= 0.0 ==> r == 0.5
  {
    if !d.Finite? || d.r <= 0.0 then 0.5 else if d.r > 1.0 then 1.0 else d.r
  }

  function Pow(d: real, n: nat): real {
    if n == 0 then 1.0 else d * Pow(d, n - 1)
  }

  /** Proximity never grows with distance. */
  lemma {:induction false} PowFalls(d: real, m: nat, n: nat)
    requires 0.0 < d <= 1.0 && m <= n
    ensures 0.0 < Pow(d, n) <= Pow(d, m) <= 1.0
    decreases n
  {
    if n > m {
      PowFalls(d, m, n - 1);
      assert d * Pow(d, n - 1) <= 1.0 * Pow(d, n - 1);
    } else if n > 0 {
      PowFalls(d, n - 1, n - 1);
      assert d * Pow(d, n - 1) <= 1.0 * Pow(d, n - 1);
    }
  }

  function ScoreOf(g: Graph, q: Query, id: Id, hops: nat): Scored
    requires id in g.nodes
  {
    var source := ResolveSource(g.nodes[id]);
    var weight := WeightForSource(source, q.sources);
    var proximity := Pow(ClampDecay(q.hopDecay), hops);
    Scored(id, proximity * weight, hops, proximity, source, weight)
  }

  /** Whether a reached node is scored at all. */
  predicate Wanted(g: Graph, q: Query, id: Id, hops: nat) {
    && (hops == 0 ==> q.includeSeeds)
    && id in g.nodes
    && (q.kinds.Some? ==> g.nodes[id].kind in q.kinds.value)
    && !(WeightForSource(ResolveSource(g.nodes[id]), q.sources) == 0.0 && q.sources.dropZero)
  }

  ghost function SeedSet(g: Graph, q: Query): set<Id> {
    set s | s in q.seeds && s in g.nodes
  }

  function MaxHops(q: Query): nat {
    if q.maxHops < 0 then 0 else q.maxHops
  }

  // ----- the search -----

  /** `hopOf` holds the exact distance of every node up to hop, and no others. */
  ghost predicate HopsExact(g: Graph, seeds: set<Id>, hopOf: map<Id, nat>, hop: nat) {
    && (forall v :: v in hopOf <==> Near(g, seeds, v, hop))
    && (forall v :: v in hopOf ==> hopOf[v] <= hop && HopDistance(g, seeds, v, hopOf[v]))
  }

  ghost predicate SearchInv(g: Graph, seeds: set<Id>, hopOf: map<Id, nat>, frontier: seq<Id>, hop: nat) {
    HopsExact(g, seeds, hopOf, hop) && BallInv(g, seeds, hopOf.Keys, frontier, hop)
  }

  function Assign(hopOf: map<Id, nat>, found: seq<Id>, h: nat): map<Id, nat> {
    map v | v in hopOf.Keys + Elems(found) :: if v in hopOf then hopOf[v] else h
  }

  lemma SearchStep(g: Graph, seeds: set<Id>, hopOf: map<Id, nat>, frontier: seq<Id>, hop: nat)
    requires SearchInv(g, seeds, hopOf, frontier, hop)
    ensures var next := LevelNext(g, SortIds(frontier), hopOf.Keys);
            SearchInv(g, seeds, Assign(hopOf, next, hop + 1), next, hop + 1)
  {
    var next := LevelNext(g, SortIds(frontier), hopOf.Keys);
    BallStep(g, seeds, hopOf.Keys, frontier, hop);
    var hopOf' := Assign(hopOf, next, hop + 1);
    assert hopOf'.Keys == hopOf.Keys + Elems(next);
    forall v | v in hopOf' ensures hopOf'[v] <= hop + 1 && HopDistance(g, seeds, v, hopOf'[v]) {
      if v !in hopOf {
        assert v in next;
      }
    }
  }

  lemma SearchSaturates(g: Graph, seeds: set<Id>, hopOf: map<Id, nat>, hop: nat, max: nat)
    requires SearchInv(g, seeds, hopOf, [], hop) && hop <= max
    ensures HopsExact(g, seeds, hopOf, max)
  {
    forall v ensures v in hopOf <==> Near(g, seeds, v, max) {
      if Near(g, seeds, v, max) {
        BallSaturates(g, seeds, hopOf.Keys, hop, max, v);
      }
      if v in hopOf {
        NearMono(g, seeds, v, hop, max);
      }
    }
  }

  /** Seeds that exist in the graph, each once. */
  method StartSearch(g: Graph, q: Query) returns (hopOf: map<Id, nat>, frontier: seq<Id>)
    ensures SearchInv(g, SeedSet(g, q), hopOf, frontier, 0)
  {
    hopOf, frontier := map[], [];
    for i := 0 to |q.seeds|
      invariant forall v :: v in hopOf <==> v in q.seeds[..i] && v in g.nodes
      invariant forall v :: v in hopOf ==> hopOf[v] == 0
      invariant forall v :: v in frontier <==> v in hopOf
    {
      var seed := q.seeds[i];
      assert q.seeds[..i + 1] == q.seeds[..i] + [seed];
      if seed in g.nodes && seed !in hopOf {
        hopOf := hopOf[seed := 0];
        frontier := frontier + [seed];
      }
    }
    assert q.seeds[..|q.seeds|] == q.seeds;
    assert forall v :: v in hopOf.Keys <==> v in SeedSet(g, q);
    assert hopOf.Keys == SeedSet(g, q);
    BallStart(g, SeedSet(g, q), frontier);
  }

  predicate Anything(id: Id) { true }

  lemma AssignMore(hopOf: map<Id, nat>, a: seq<Id>, b: seq<Id>, h: nat)
    ensures Assign(Assign(hopOf, a, h), b, h) == Assign(hopOf, a + b, h)
    ensures Assign(hopOf, a, h).Keys == hopOf.Keys + Elems(a)
  {
  }

  /** The single-hop expansion through the public surface: all neighbours but the node itself. */
  lemma SingleHop(g: Graph, u: Id)
    requires u in g.nodes && u in g.adj && |g.adj[u]| <= MAX_SAFE_INTEGER
    ensures NeighborsOf(g, u, 1, MAX_SAFE_INTEGER, Anything) == NewIn(Adj(g, u), {u})
  {
    var found := NewIn(Adj(g, u), {u});
    assert SortIds([u]) == [u] by {
      SortKeeps((a: Id, b: Id) => a <= b, [u]);
      assert |SortIds([u])| == |multiset(SortIds([u]))|;
    }
    assert LevelNext(g, [u], {u}) == found + LevelNext(g, [], {u} + Elems(found)) == found;
    assert Levels(g, [u], {u}, 1) == found + Levels(g, found, {u} + Elems(found), 0) == found;
    FilterAll(found);
    AdjSpec(g, u);
    NewInShort(Adj(g, u), {u});
  }

  lemma {:induction false} FilterAll(s: seq<Id>)
    ensures Filter(Anything, s) == s
  {
    if s != [] {
      FilterAll(s[1..]);
    }
  }

  lemma {:induction false} NewInShort(adj: seq<Id>, visited: set<Id>)
    ensures |NewIn(adj, visited)| <= |adj|
    decreases |adj|
  {
    if adj != [] {
      NewInShort(adj[1..], visited);
      NewInShort(adj[1..], visited + {adj[0]});
    }
  }

  /** Leaving a visited node out first changes nothing. */
  lemma {:induction false} NewInTwice(adj: seq<Id>, first: set<Id>, visited: set<Id>)
    requires first <= visited
    ensures NewIn(NewIn(adj, first), visited) == NewIn(adj, visited)
    decreases |adj|
  {
    if adj != [] {
      var x, tail := adj[0], adj[1..];
      if x in first {
        NewInTwice(tail, first, visited);
      } else {
        assert NewIn(adj, first)[1..] == NewIn(tail, first + {x});
        if x in visited {
          assert first + {x} <= visited;
          NewInTwice(tail, first + {x}, visited);
        } else {
          NewInTwice(tail, first + {x}, visited + {x});
        }
      }
    }
  }

  /** One frontier node: every neighbour not yet reached gets the next hop. */
  method ExpandNode(g: Graph, current: Id, hopOf: map<Id, nat>, h: nat) returns (hopOf': map<Id, nat>, found: seq<Id>)
    requires current in g.nodes && current in g.adj && current in hopOf && |g.adj[current]| <= MAX_SAFE_INTEGER
    ensures found == NewIn(Adj(g, current), hopOf.Keys)
    ensures hopOf' == Assign(hopOf, found, h)
  {
    var adj := Neighbors(g, current, 1, MAX_SAFE_INTEGER, Anything);
    SingleHop(g, current);
    NewInTwice(Adj(g, current), {current}, hopOf.Keys);
    hide *;
    hopOf', found := hopOf, [];
    ghost var all := NewIn(adj, hopOf.Keys);
    AssignNone(hopOf, h);
    assert adj[0..] == adj && [] + all == all;
    for i := 0 to |adj|
      invariant hopOf' == Assign(hopOf, found, h)
      invariant found + NewIn(adj[i..], hopOf'.Keys) == all
    {
      var nid := adj[i];
      ReachStep(adj, i, hopOf, h, found, hopOf');
      if nid in hopOf' {
        continue;
      }
      hopOf' := hopOf'[nid := h];
      found := found + [nid];
    }
    assert adj[|adj|..] == [] && found + [] == found;
    NewInDone(hopOf'.Keys);
  }

  /** One neighbour: already reached, or reached now at the next hop. */
  lemma ReachStep(adj: seq<Id>, i: nat, hopOf: map<Id, nat>, h: nat, found: seq<Id>, hopOf': map<Id, nat>)
    requires i < |adj| && hopOf' == Assign(hopOf, found, h)
    ensures adj[i] in hopOf' ==> NewIn(adj[i..], hopOf'.Keys) == NewIn(adj[i + 1..], hopOf'.Keys)
    ensures adj[i] !in hopOf' ==>
              && hopOf'[adj[i] := h] == Assign(hopOf, found + [adj[i]], h)
              && found + NewIn(adj[i..], hopOf'.Keys) ==
                 found + [adj[i]] + NewIn(adj[i + 1..], hopOf'[adj[i] := h].Keys)
  {
    hide NewIn, Assign;
    var nid := adj[i];
    assert adj[i..][0] == nid && adj[i..][1..] == adj[i + 1..];
    NewInHead(adj[i..], hopOf'.Keys);
    if nid !in hopOf' {
      AssignMore(hopOf, found, [nid], h);
      AssignOne(hopOf', nid, h);
    }
  }

  lemma AssignOne(hopOf: map<Id, nat>, v: Id, h: nat)
    requires v !in hopOf
    ensures hopOf[v := h] == Assign(hopOf, [v], h) && hopOf[v := h].Keys == hopOf.Keys + {v}
  {
  }

  ghost predicate Sized(g: Graph) {
    Valid(g) && forall u :: u in g.adj ==> |g.adj[u]| <= MAX_SAFE_INTEGER
  }

  method ExpandFrontier(g: Graph, ordered: seq<Id>, hopOf: map<Id, nat>, h: nat)
    returns (hopOf': map<Id, nat>, next: seq<Id>)
    requires Sized(g) && forall u :: u in ordered ==> u in g.nodes && u in hopOf
    ensures next == LevelNext(g, ordered, hopOf.Keys) && hopOf' == Assign(hopOf, next, h)
  {
    forall u | u in ordered ensures u in g.nodes && u in g.adj && u in hopOf && |g.adj[u]| <= MAX_SAFE_INTEGER {}
    hide *;
    hopOf', next := hopOf, [];
    ghost var all := LevelNext(g, ordered, hopOf.Keys);
    AssignNone(hopOf, h);
    assert ordered[0..] == ordered && [] + all == all;
    for i := 0 to |ordered|
      invariant hopOf' == Assign(hopOf, next, h) && hopOf.Keys <= hopOf'.Keys
      invariant next + LevelNext(g, ordered[i..], hopOf'.Keys) == all
    {
      var current := ordered[i];
      assert current in ordered;
      assert ordered[i..][0] == current && ordered[i..][1..] == ordered[i + 1..];
      LevelNextHead(g, ordered[i..], hopOf'.Keys);
      ghost var before := hopOf';
      var hopOf1, found := ExpandNode(g, current, hopOf', h);
      AssignMore(hopOf, next, found, h);
      AssignKeys(before, found, h);
      assert next + found + LevelNext(g, ordered[i + 1..], hopOf1.Keys) ==
             next + (found + LevelNext(g, ordered[i + 1..], hopOf1.Keys));
      hopOf' := hopOf1;
      next := next + found;
    }
    LevelNextDone(g, hopOf'.Keys);
    assert ordered[|ordered|..] == [] && next + [] == next;
  }

  lemma AssignNone(hopOf: map<Id, nat>, h: nat)
    ensures Assign(hopOf, [], h) == hopOf
  {
  }

  lemma AssignKeys(hopOf: map<Id, nat>, a: seq<Id>, h: nat)
    ensures Assign(hopOf, a, h).Keys == hopOf.Keys + Elems(a)
  {
  }

  /** The first phase: exact hop distances within the radius. */
  method Search(g: Graph, q: Query) returns (hopOf: map<Id, nat>)
    requires Sized(g)
    ensures HopsExact(g, SeedSet(g, q), hopOf, MaxHops(q))
  {
    hide NewIn, LevelNext, Assign, HopsExact, Near;
    var frontier;
    hopOf, frontier := StartSearch(g, q);
    var hop := 0;
    while hop < MaxHops(q) && frontier != []
      invariant 0 <= hop <= MaxHops(q)
      invariant SearchInv(g, SeedSet(g, q), hopOf, frontier, hop)
    {
      var ordered := SortIds(frontier);
      SortIdsKeeps(frontier);
      FrontierInGraph(g, SeedSet(g, q), hopOf, frontier, hop);
      SearchStep(g, SeedSet(g, q), hopOf, frontier, hop);
      hopOf, frontier := ExpandFrontier(g, ordered, hopOf, hop + 1);
      hop := hop + 1;
    }
    if frontier == [] {
      SearchSaturates(g, SeedSet(g, q), hopOf, hop, MaxHops(q));
    }
  }

  lemma NearInGraph(g: Graph, seeds: set<Id>, v: Id, k: nat)
    requires Valid(g) && Near(g, seeds, v, k) && forall s :: s in seeds ==> s in g.nodes
    ensures v in g.nodes
  {
    var w :| Reaches(g, seeds, w, v, k);
    if |w| > 1 {
      assert Linked(g, w[|w| - 2], w[|w| - 1]);
    }
  }

  lemma FrontierInGraph(g: Graph, seeds: set<Id>, hopOf: map<Id, nat>, frontier: seq<Id>, hop: nat)
    requires Valid(g) && SearchInv(g, seeds, hopOf, frontier, hop) && forall s :: s in seeds ==> s in g.nodes
    ensures forall u :: u in frontier ==> u in g.nodes && u in hopOf
  {
    forall u | u in frontier ensures u in g.nodes && u in hopOf {
      NearInGraph(g, seeds, u, hop);
    }
  }

  // ----- scoring and ranking -----

  /** a ranks no lower than b: higher score, then collation order of the ids. */
  predicate Ranks(collate: Id -> int, a: Scored, b: Scored) {
    a.score > b.score || (a.score == b.score && collate(a.id) <= collate(b.id))
  }

  /** Best first. */
  function Rank(collate: Id -> int, s: seq<Scored>): seq<Scored> {
    Sort((a: Scored, b: Scored) => Ranks(collate, a, b), s)
  }

  ghost predicate Ranked(collate: Id -> int, s: seq<Scored>) {
    forall i, j :: 0 <= i < j < |s| ==> Ranks(collate, s[i], s[j])
  }

  lemma RankSpec(collate: Id -> int, s: seq<Scored>)
    ensures Ranked(collate, Rank(collate, s)) && multiset(Rank(collate, s)) == multiset(s)
  {
    var before := (a: Scored, b: Scored) => Ranks(collate, a, b);
    SortKeeps(before, s);
    SortInOrder(before, s);
    var r := Rank(collate, s);
    forall i, j | 0 <= i < j < |r| ensures Ranks(collate, r[i], r[j]) {
      assert before(r[i], r[j]);
    }
  }

  ghost predicate IsScored(g: Graph, q: Query, e: Scored) {
    && e.id in g.nodes && e == ScoreOf(g, q, e.id, e.hops) && e.hops <= MaxHops(q)
    && HopDistance(g, SeedSet(g, q), e.id, e.hops) && Wanted(g, q, e.id, e.hops)
  }

  ghost predicate HasEntry(s: seq<Scored>, v: Id, h: nat) {
    exists e :: e in s && e.id == v && e.hops == h
  }

  /** Exactly the wanted nodes of the ball, each once, with its exact distance and score. */
  ghost predicate AllScored(g: Graph, q: Query, s: seq<Scored>) {
    && (forall i, j :: 0 <= i < j < |s| ==> s[i].id != s[j].id)
    && (forall e :: e in s ==> IsScored(g, q, e))
    && (forall v, h: nat :: h <= MaxHops(q) && HopDistance(g, SeedSet(g, q), v, h) && Wanted(g, q, v, h) ==>
          HasEntry(s, v, h))
  }

  /** The second phase, over the reached nodes in the order they were reached. */
  method ScoreAll(g: Graph, q: Query, hopOf: map<Id, nat>) returns (scored: seq<Scored>)
    requires HopsExact(g, SeedSet(g, q), hopOf, MaxHops(q))
    ensures AllScored(g, q, scored)
  {
    scored := [];
    var left := hopOf.Keys;
    while left != {}
      invariant left <= hopOf.Keys
      invariant forall i, j :: 0 <= i < j < |scored| ==> scored[i].id != scored[j].id
      invariant forall e :: e in scored ==> e.id in hopOf && e.id !in left && IsScored(g, q, e)
      invariant forall v :: v in hopOf && v !in left && Wanted(g, q, v, hopOf[v]) ==> HasEntry(scored, v, hopOf[v])
      decreases left
    {
      ghost var key := PickOne(left);
      var nid :| nid in left;
      left := left - {nid};
      var hops := hopOf[nid];
      if Wanted(g, q, nid, hops) {
        ghost var before := scored;
        var e := ScoreOf(g, q, nid, hops);
        scored := scored + [e];
        assert e in scored;
        forall v, h: nat | HasEntry(before, v, h) ensures HasEntry(scored, v, h) {
          var f :| f in before && f.id == v && f.hops == h;
          assert f in scored;
        }
      }
    }
    DistanceUnique(g, q, hopOf);
  }

  lemma DistanceUnique(g: Graph, q: Query, hopOf: map<Id, nat>)
    requires HopsExact(g, SeedSet(g, q), hopOf, MaxHops(q))
    ensures forall v, h: nat :: h <= MaxHops(q) && HopDistance(g, SeedSet(g, q), v, h) ==> v in hopOf && hopOf[v] == h
  {
    var seeds := SeedSet(g, q);
    forall v, h: nat | h <= MaxHops(q) && HopDistance(g, seeds, v, h) ensures v in hopOf && hopOf[v] == h {
      NearMono(g, seeds, v, h, MaxHops(q));
      if hopOf[v] < h {
        NearMono(g, seeds, v, hopOf[v], h - 1);
      } else if h < hopOf[v] {
        NearMono(g, seeds, v, h, hopOf[v] - 1);
      }
    }
  }

  function TakeScored(s: seq<Scored>, limit: int): seq<Scored> {
    if limit <= 0 || limit >= |s| then s else s[..limit]
  }

  /** The best of `all`, ranked: as many as the limit says, each once, and none of those
      left out ranks higher. A limit of zero or less means all. */
  ghost predicate BestOf(collate: Id -> int, all: seq<Scored>, limit: int, r: seq<Scored>) {
    && |r| == (if 0 < limit < |all| then limit else |all|)
    && (forall i, j :: 0 <= i < j < |r| ==> r[i].id != r[j].id)
    && (forall e :: e in r ==> e in all)
    && Ranked(collate, r)
    && (forall d, e :: d in r && e in all && e !in r ==> Ranks(collate, d, e))
  }

  lemma TakeIsBest(g: Graph, q: Query, collate: Id -> int, all: seq<Scored>, limit: int)
    requires AllScored(g, q, all) && Ranked(collate, all)
    ensures BestOf(collate, all, limit, TakeScored(all, limit))
  {
    var r := TakeScored(all, limit);
    forall d, e | d in r && e in all && e !in r ensures Ranks(collate, d, e) {
      var i :| 0 <= i < |r| && r[i] == d;
      var j :| 0 <= j < |all| && all[j] == e;
      TakeHas(all, j, |r|);
      assert r == all[..|r|];
    }
  }

  /** No two nodes collate alike. */
  ghost predicate Separates(g: Graph, collate: Id -> int) {
    forall a, b :: a in g.nodes && b in g.nodes && collate(a) == collate(b) ==> a == b
  }

  /** What an entry says: exact distance, source and weight of the node, and a score that
      falls by the decay with every hop. */
  ghost predicate EntryRight(g: Graph, q: Query, e: Scored) {
    && e.id in g.nodes && e.hops <= MaxHops(q) && HopDistance(g, SeedSet(g, q), e.id, e.hops)
    && e.source == (match g.nodes[e.id].tag
                    case Untagged => g.nodes[e.id].kind
                    case PrintedTag(text) => text
                    case TextTag(text) => if text == "" then g.nodes[e.id].kind else text)
    && e.sourceWeight == WeightForSource(e.source, q.sources)
    && e.score == e.proximity * e.sourceWeight
    && e.proximity == Pow(ClampDecay(q.hopDecay), e.hops)
  }

  /** The filters let the node through: a seed only when seeds are wanted, a kind among
      those asked for if any were, and not a weightless source when those are dropped. */
  ghost predicate Passes(g: Graph, q: Query, v: Id) {
    && v in g.nodes
    && (v in q.seeds ==> q.includeSeeds)
    && (q.kinds == None || g.nodes[v].kind in q.kinds.value)
    && (q.sources.dropZero ==> WeightForSource(ResolveSource(g.nodes[v]), q.sources) > 0.0)
  }

  lemma WantedPasses(g: Graph, q: Query, v: Id, h: nat)
    requires HopDistance(g, SeedSet(g, q), v, h)
    ensures Wanted(g, q, v, h) <==> Passes(g, q, v)
  {
    NearSeed(g, SeedSet(g, q), v);
    if h > 0 && v in SeedSet(g, q) {
      NearMono(g, SeedSet(g, q), v, 0, h - 1);
    }
  }

  lemma ScoredEntries(g: Graph, q: Query, all: seq<Scored>)
    requires AllScored(g, q, all)
    ensures forall e :: e in all ==> EntryRight(g, q, e)
    ensures forall v :: HasId(all, v) <==> Passes(g, q, v) && Near(g, SeedSet(g, q), v, MaxHops(q))
  {
    forall v ensures HasId(all, v) <==> Passes(g, q, v) && Near(g, SeedSet(g, q), v, MaxHops(q)) {
      if HasId(all, v) {
        var e :| e in all && e.id == v;
        assert IsScored(g, q, e);
        WantedPasses(g, q, v, e.hops);
        NearMono(g, SeedSet(g, q), v, e.hops, MaxHops(q));
      }
      if Passes(g, q, v) && Near(g, SeedSet(g, q), v, MaxHops(q)) {
        var h := LeastHop(g, SeedSet(g, q), v, MaxHops(q));
        WantedPasses(g, q, v, h);
        assert HasEntry(all, v, h);
      }
    }
  }

  /** Each hop multiplies the proximity by the decay, starting from one. */
  lemma {:induction false} PowLaw(d: real, m: nat, n: nat)
    ensures Pow(d, 0) == 1.0 && Pow(d, 1) == d
    ensures Pow(d, m + n) == Pow(d, m) * Pow(d, n)
    decreases m
  {
    assert Pow(d, 1) == d * Pow(d, 0);
    if m > 0 {
      PowLaw(d, m - 1, n);
      assert Pow(d, m + n) == d * (Pow(d, m - 1) * Pow(d, n));
    }
  }

  /** The result is the best `limit` entries (all of them for a limit of zero or less)
      of exactly the nodes of the ball that pass the filters, best first; when ids collate
      apart there is only one such result. */
  method RetrieveWeighted(g: Graph, q: Query, collate: Id -> int) returns (r: seq<Scored>)
    requires Sized(g)
    ensures exists all :: AllScored(g, q, all) && BestOf(collate, all, q.limit, r)
    ensures forall e :: e in r ==> EntryRight(g, q, e) && Passes(g, q, e.id)
    ensures q.limit <= 0 ==>
              forall v :: HasId(r, v) <==> Passes(g, q, v) && Near(g, SeedSet(g, q), v, MaxHops(q))
    ensures Separates(g, collate) ==>
              forall all :: AllScored(g, q, all) && Ranked(collate, all) ==> r == TakeScored(all, q.limit)
  {
    var hopOf := Search(g, q);
    var scored := ScoreAll(g, q, hopOf);
    var ranked := Rank(collate, scored);
    RankedStillAll(g, q, collate, scored);
    r := TakeScored(ranked, q.limit);
    TakeIsBest(g, q, collate, ranked, q.limit);
    ScoredEntries(g, q, ranked);
    assert forall e :: e in r ==> e in ranked && HasId(ranked, e.id);
    hide AllScored, Ranked, Rank, EntryRight, Passes, HasId;
    forall all | Separates(g, collate) && AllScored(g, q, all) && Ranked(collate, all)
      ensures r == TakeScored(all, q.limit)
    {
      RankingUnique(g, q, collate, ranked, all);
    }
  }

  /** A node has only one entry it can be scored with. */
  lemma EntryUnique(g: Graph, q: Query, a: Scored, b: Scored)
    requires IsScored(g, q, a) && IsScored(g, q, b) && a.id == b.id
    ensures a == b
  {
    if a.hops < b.hops {
      NearMono(g, SeedSet(g, q), a.id, a.hops, b.hops - 1);
    } else if b.hops < a.hops {
      NearMono(g, SeedSet(g, q), a.id, b.hops, a.hops - 1);
    }
  }

  lemma SameEntries(g: Graph, q: Query, a: seq<Scored>, b: seq<Scored>, e: Scored)
    requires AllScored(g, q, a) && AllScored(g, q, b) && e in a
    ensures e in b
  {
    assert IsScored(g, q, e);
    assert HasEntry(b, e.id, e.hops);
    var f :| f in b && f.id == e.id && f.hops == e.hops;
    EntryUnique(g, q, e, f);
  }

  ghost predicate Apart(collate: Id -> int, s: seq<Scored>) {
    forall i, j :: 0 <= i < j < |s| ==> collate(s[i].id) != collate(s[j].id)
  }

  lemma FirstIsBest(collate: Id -> int, s: seq<Scored>, k: nat)
    requires Ranked(collate, s) && k < |s|
    ensures k == 0 || Ranks(collate, s[0], s[k])
  {
  }

  /** Two ranked lists of the same entries are the same list. */
  lemma {:induction false} RankedOneWay(collate: Id -> int, a: seq<Scored>, b: seq<Scored>)
    requires Ranked(collate, a) && Ranked(collate, b) && Apart(collate, a) && Apart(collate, b)
    requires forall e :: e in a <==> e in b
    ensures a == b
  {
    assert (a == [] || a[0] in a) && (b == [] || b[0] in b);
    if a != [] {
      var k :| 0 <= k < |b| && b[k] == a[0];
      var l :| 0 <= l < |a| && a[l] == b[0];
      FirstIsBest(collate, a, l);
      FirstIsBest(collate, b, k);
      assert a[0] == b[0];
      forall e ensures e in a[1..] <==> e in b[1..] {
        TailEntry(collate, a, e);
        TailEntry(collate, b, e);
      }
      RankedOneWay(collate, a[1..], b[1..]);
      assert a == [a[0]] + a[1..] && b == [b[0]] + b[1..];
    }
  }

  lemma TailEntry(collate: Id -> int, s: seq<Scored>, e: Scored)
    requires s != [] && Apart(collate, s)
    ensures e in s[1..] <==> e in s && e != s[0]
  {
    InSplit(s, e);
    if e in s[1..] {
      var j :| 0 <= j < |s[1..]| && s[1..][j] == e;
      assert s[j + 1] == e;
    }
  }

  /** For an identical graph and query the ranking is identical. */
  lemma RankingUnique(g: Graph, q: Query, collate: Id -> int, a: seq<Scored>, b: seq<Scored>)
    requires Separates(g, collate)
    requires AllScored(g, q, a) && Ranked(collate, a) && AllScored(g, q, b) && Ranked(collate, b)
    ensures a == b
  {
    forall e ensures e in a <==> e in b {
      if e in a {
        SameEntries(g, q, a, b, e);
      }
      if e in b {
        SameEntries(g, q, b, a, e);
      }
    }
    ScoredApart(g, q, collate, a);
    ScoredApart(g, q, collate, b);
    RankedOneWay(collate, a, b);
  }

  lemma ScoredApart(g: Graph, q: Query, collate: Id -> int, s: seq<Scored>)
    requires Separates(g, collate) && AllScored(g, q, s)
    ensures Apart(collate, s)
  {
    forall i, j | 0 <= i < j < |s| ensures collate(s[i].id) != collate(s[j].id) {
      var a, b := s[i], s[j];
      assert a in s && b in s;
      assert IsScored(g, q, a) && IsScored(g, q, b);
    }
  }

  lemma RankedStillAll(g: Graph, q: Query, collate: Id -> int, s: seq<Scored>)
    requires AllScored(g, q, s)
    ensures AllScored(g, q, Rank(collate, s)) && Ranked(collate, Rank(collate, s))
  {
    var r := Rank(collate, s);
    RankSpec(collate, s);
    forall e ensures e in r <==> e in s {
      assert e in r <==> e in multiset(r);
      assert e in s <==> e in multiset(s);
    }
    SortNoDup((a: Scored, b: Scored) => Ranks(collate, a, b), s);
    forall i, j | 0 <= i < j < |r| ensures r[i].id != r[j].id {
      var a, b := r[i], r[j];
      assert a in r && b in r;
      var k :| 0 <= k < |s| && s[k] == a;
      var l :| 0 <= l < |s| && s[l] == b;
      assert k != l;
    }
    forall v, h: nat | h <= MaxHops(q) && HopDistance(g, SeedSet(g, q), v, h) && Wanted(g, q, v, h)
      ensures HasEntry(r, v, h)
    {
      var e :| e in s && e.id == v && e.hops == h;
      assert e in r;
    }
  }

  ghost predicate HasId(s: seq<Scored>, v: Id) {
    exists e :: e in s && e.id == v
  }

  /** With one seed left out and nothing filtered, the entries are the punctured ball. */
  lemma ScoredIsBall(g: Graph, q: Query, seed: Id, all: seq<Scored>, v: Id)
    requires Valid(g) && seed in g.nodes && SeedSet(g, q) == {seed} && !q.includeSeeds
    requires q.kinds.None? && !q.sources.dropZero && AllScored(g, q, all)
    ensures HasId(all, v) <==> v != seed && Near(g, {seed}, v, MaxHops(q))
  {
    var k := MaxHops(q);
    NearSeed(g, {seed}, v);
    if HasId(all, v) {
      var e :| e in all && e.id == v;
      assert IsScored(g, q, e);
      NearMono(g, {seed}, v, e.hops, k);
      if v == seed {
        NearMono(g, {seed}, v, 0, e.hops - 1);
        assert false;
      }
    }
    if v != seed && Near(g, {seed}, v, k) {
      var h := LeastHop(g, {seed}, v, k);
      NearInGraph(g, {seed}, v, k);
      assert HasEntry(all, v, h);
    }
  }

  /** With one seed, seeds left out and nothing filtered, retrieval reaches exactly the
      nodes that the independently written `neighbors` reaches. */
  lemma AgreesWithNeighbors(g: Graph, q: Query, seed: Id, all: seq<Scored>, limit: int)
    requires Valid(g) && seed in g.nodes && q.seeds == [seed] && !q.includeSeeds && q.maxHops >= 0
    requires q.kinds.None? && !q.sources.dropZero && AllScored(g, q, all)
    requires limit >= |Levels(g, [seed], {seed}, MaxHops(q))|
    ensures forall v :: HasId(all, v) <==> v in NeighborsOf(g, seed, q.maxHops, limit, Anything)
  {
    var k := MaxHops(q);
    assert SeedSet(g, q) == {seed};
    NeighborsExact(g, seed, k, Anything, limit);
    FilterAll(Levels(g, [seed], {seed}, k));
    assert NeighborsOf(g, seed, q.maxHops, limit, Anything) == AllNeighbors(g, seed, k, Anything);
    forall v ensures HasId(all, v) <==> v in NeighborsOf(g, seed, q.maxHops, limit, Anything) {
      ScoredIsBall(g, q, seed, all, v);
    }
  }

  lemma {:induction false} LeastHop(g: Graph, seeds: set<Id>, v: Id, k: nat) returns (h: nat)
    requires Near(g, seeds, v, k)
    ensures h <= k && HopDistance(g, seeds, v, h)
  {
    if k > 0 && Near(g, seeds, v, k - 1) {
      h := LeastHop(g, seeds, v, k - 1);
    } else {
      h := k;
    }
  }

  /** The score of a node one hop further away is the decay times the score. */
  lemma ScoreFallsByDecay(g: Graph, q: Query, id: Id, h: nat)
    requires id in g.nodes
    ensures ScoreOf(g, q, id, 0).score == ScoreOf(g, q, id, 0).sourceWeight
    ensures ScoreOf(g, q, id, h + 1).score == ClampDecay(q.hopDecay) * ScoreOf(g, q, id, h).score
  {
    PowLaw(ClampDecay(q.hopDecay), 1, h);
  }

  lemma MulMono(a: real, b: real, w: real)
    requires a >= b && w >= 0.0
    ensures a * w >= b * w && w * a >= w * b
  {
  }

  /** A closer node never scores below a farther one of the same source, and a heavier
      source never scores below a lighter one at the same distance. */
  lemma ScoreIsMonotone(g: Graph, q: Query, a: Id, i: nat, b: Id, j: nat)
    requires a in g.nodes && b in g.nodes
    ensures var x, y := ScoreOf(g, q, a, i), ScoreOf(g, q, b, j);
            x.sourceWeight >= y.sourceWeight && i <= j ==> x.score >= y.score >= 0.0
  {
    var x, y := ScoreOf(g, q, a, i), ScoreOf(g, q, b, j);
    if x.sourceWeight >= y.sourceWeight && i <= j {
      PowFalls(ClampDecay(q.hopDecay), i, j);
      MulMono(x.sourceWeight, y.sourceWeight, x.proximity);
      MulMono(x.proximity, y.proximity, y.sourceWeight);
      MulMono(y.proximity, 0.0, y.sourceWeight);
    }
  }
}
