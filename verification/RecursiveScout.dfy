/** The import walker (packages/code/src/analysis/RecursiveScout.ts). Parsing and path
    resolution become a fixed map from each supported file to its resolved imports. */
module Scouts {
  import opened Common

  /** Absolute paths; only their identity matters. */
  type File = int

  /** For each supported file, what each of its import statements resolves to; and the
      files that exist, which decides the entry points that are walked. */
  datatype Project = Project(imports: map<File, seq<Option<File>>>, present: set<File>)

  ghost function Roots(p: Project, entries: seq<File>): set<File> {
    set e | e in entries && e in p.present
  }

  ghost predicate Edge(p: Project, f: File, g: File) {
    f in p.imports && Some(g) in p.imports[f]
  }

  ghost predicate IsWalk(p: Project, w: seq<File>) {
    forall i :: 0 < i < |w| ==> Edge(p, w[i - 1], w[i])
  }

  /** A walk from an entry point. */
  ghost predicate FromEntry(p: Project, entries: set<File>, w: seq<File>) {
    w != [] && w[0] in entries && IsWalk(p, w)
  }

  ghost predicate Reachable(p: Project, entries: set<File>, f: File) {
    exists w :: FromEntry(p, entries, w) && w[|w| - 1] == f
  }

  /** A walk from an entry point whose last file closes a cycle at position k. */
  ghost predicate Lasso(p: Project, entries: set<File>, w: seq<File>, k: nat) {
    FromEntry(p, entries, w) && k < |w| - 1 && w[k] == w[|w| - 1]
  }

  /** The import graph reachable from the entry points has a cycle. */
  ghost predicate HasCycle(p: Project, entries: set<File>) {
    exists w, k :: Lasso(p, entries, w, k)
  }

  // ----- the depth-first walk as a function -----

  /** `circular` collects the cycles; `nodes` the dependencies of each parsed file. */
  datatype WalkState = WalkState(nodes: map<File, seq<File>>, visited: set<File>, circular: seq<seq<File>>)

  function Dedup(imports: seq<Option<File>>, acc: seq<File>): seq<File> {
    if imports == [] then acc
    else
      var keep := imports[0].Some? && imports[0].value !in acc;
      Dedup(imports[1..], if keep then acc + [imports[0].value] else acc)
  }

  function Dependencies(p: Project, f: File): seq<File>
    requires f in p.imports
  {
    Dedup(p.imports[f], [])
  }

  function IndexOf<T(==)>(path: seq<T>, f: T): (k: nat)
    requires f in path
    ensures k < |path| && path[k] == f && f !in path[..k]
  {
    if path[0] == f then 0
    else
      InSplit(path, f);
      var k := IndexOf(path[1..], f);
      assert path[..k + 1] == [path[0]] + path[1..][..k];
      k + 1
  }

  function Visit(p: Project, max: int, st: WalkState, f: File, path: seq<File>, depth: nat): (r: WalkState)
    ensures st.visited <= r.visited && st.circular <= r.circular
    decreases p.imports.Keys - st.visited, 0
  {
    if depth > max then st
    else if f in path then st.(circular := st.circular + [path[IndexOf(path, f)..] + [f]])
    else if f in st.visited then st
    else
      var st1 := st.(visited := st.visited + {f});
      if f !in p.imports then st1
      else
        var deps := Dependencies(p, f);
        VisitAll(p, max, st1.(nodes := st.nodes[f := deps]), deps, path + [f], depth + 1)
  }

  function VisitAll(p: Project, max: int, st: WalkState, deps: seq<File>, path: seq<File>, depth: nat): (r: WalkState)
    ensures st.visited <= r.visited && st.circular <= r.circular
    decreases p.imports.Keys - st.visited, |deps| + 1
  {
    if deps == [] then st
    else
      var st' := Visit(p, max, st, deps[0], path, depth);
      assert p.imports.Keys - st'.visited <= p.imports.Keys - st.visited;
      VisitAll(p, max, st', deps[1..], path, depth)
  }

  /** The whole walk: the existing entry points in order. */
  function Build(p: Project, max: int, st: WalkState, entries: seq<File>): WalkState
    decreases |entries|
  {
    if entries == [] then st
    else if entries[0] !in p.present then Build(p, max, st, entries[1..])
    else Build(p, max, Visit(p, max, st, entries[0], [], 0), entries[1..])
  }

  const Fresh := WalkState(map[], {}, [])

  lemma {:induction false} DedupSpec(imports: seq<Option<File>>, acc: seq<File>)
    requires NoDup(acc)
    ensures NoDup(Dedup(imports, acc))
    ensures forall g :: g in Dedup(imports, acc) <==> g in acc || Some(g) in imports
  {
    if imports != [] {
      var keep := imports[0].Some? && imports[0].value !in acc;
      var acc' := if keep then acc + [imports[0].value] else acc;
      DedupSpec(imports[1..], acc');
      forall g ensures Some(g) in imports <==> imports[0] == Some(g) || Some(g) in imports[1..] {
        InSplit(imports, Some(g));
      }
    }
  }

  lemma {:induction false} DedupSnoc(imports: seq<Option<File>>, acc: seq<File>, x: Option<File>)
    ensures var r := Dedup(imports, acc);
            Dedup(imports + [x], acc) == if x.Some? && x.value !in r then r + [x.value] else r
    decreases |imports|
  {
    if imports == [] {
      assert (imports + [x])[1..] == [];
    } else {
      var keep := imports[0].Some? && imports[0].value !in acc;
      assert (imports + [x])[1..] == imports[1..] + [x];
      DedupSnoc(imports[1..], if keep then acc + [imports[0].value] else acc, x);
    }
  }

  lemma IndexInPrefix<T>(s: seq<T>, x: T, e: T)
    requires e in s
    ensures IndexOf(s + [x], e) == IndexOf(s, e)
  {
    var k, l := IndexOf(s + [x], e), IndexOf(s, e);
    assert (s + [x])[..l] == s[..l];
    TakeHas(s + [x], k, l);
    TakeHas(s + [x], l, k);
  }

  /** `a` is first imported before `b` is. */
  ghost predicate ImportedBefore(imports: seq<Option<File>>, a: File, b: File) {
    Some(a) in imports && Some(b) in imports && IndexOf(imports, Some(a)) < IndexOf(imports, Some(b))
  }

  /** The dependencies come in the order in which they are first imported. */
  lemma {:induction false} DedupOrder(imports: seq<Option<File>>)
    ensures var r := Dedup(imports, []);
            forall i, j :: 0 <= i < j < |r| ==> ImportedBefore(imports, r[i], r[j])
  {
    DedupSpec(imports, []);
    var r := Dedup(imports, []);
    if imports != [] {
      var front, x := Front(imports), Last(imports);
      var r0 := Dedup(front, []);
      assert imports == front + [x];
      DedupSnoc(front, [], x);
      DedupSpec(front, []);
      DedupOrder(front);
      forall i, j | 0 <= i < j < |r| ensures ImportedBefore(imports, r[i], r[j]) {
        var a, b := r[i], r[j];
        assert a in r && b in r && a == r0[i] && a in r0;
        IndexInPrefix(front, x, Some(a));
        if j < |r0| {
          assert b == r0[j] && ImportedBefore(front, a, b);
          IndexInPrefix(front, x, Some(b));
        } else {
          TakeHas(imports, IndexOf(imports, Some(b)), |front|);
          assert imports[..|front|] == front && Some(b) !in front;
        }
      }
    }
  }

  lemma DependenciesAreEdges(p: Project, f: File)
    requires f in p.imports
    ensures NoDup(Dependencies(p, f))
    ensures forall g :: g in Dependencies(p, f) <==> Edge(p, f, g)
  {
    DedupSpec(p.imports[f], []);
  }

  // ----- soundness: at every depth limit -----

  /** The reported list is the closed end of a walk from an entry point. */
  ghost predicate Reported(p: Project, entries: set<File>, c: seq<File>) {
    exists w, k :: Lasso(p, entries, w, k) && c == w[k..]
  }

  ghost predicate Sound(p: Project, entries: set<File>, st: WalkState) {
    && (forall c :: c in st.circular ==> Reported(p, entries, c))
    && (forall c :: c in st.circular ==> |c| >= 2 && NoDup(Front(c)))
    && (forall f :: f in st.visited ==> Reachable(p, entries, f))
    && (forall f :: f in st.nodes <==> f in p.imports && f in st.visited)
    && (forall f :: f in st.nodes && f in p.imports ==> st.nodes[f] == Dependencies(p, f))
  }

  lemma WalkAppend(p: Project, entries: set<File>, w: seq<File>, g: File)
    requires w == [] ==> g in entries
    requires w != [] ==> FromEntry(p, entries, w) && Edge(p, w[|w| - 1], g)
    ensures FromEntry(p, entries, w + [g])
  {
    var w' := w + [g];
    forall i | 0 < i < |w'| ensures Edge(p, w'[i - 1], w'[i]) {
      if i < |w| {
        assert Edge(p, w[i - 1], w[i]);
      }
    }
  }

  lemma ReportSound(p: Project, entries: set<File>, st: WalkState, f: File, path: seq<File>)
    requires FromEntry(p, entries, path + [f]) && f in path && NoDup(path) && Sound(p, entries, st)
    ensures Sound(p, entries, st.(circular := st.circular + [path[IndexOf(path, f)..] + [f]]))
  {
    hide Sound, FromEntry;
    var k := IndexOf(path, f);
    var w, c := path + [f], path[k..] + [f];
    assert w[k..] == c && w[k] == f;
    assert Lasso(p, entries, w, k);
    assert Reported(p, entries, c);
    hide Reported, Lasso;
    FrontOf(path[k..], f);
    NoDupTail(path, k);
    SoundAppend(p, entries, st, c);
  }

  lemma FrontOf<T>(s: seq<T>, x: T)
    ensures Front(s + [x]) == s
  {
  }

  lemma NoDupTail<T>(s: seq<T>, k: nat)
    requires NoDup(s) && k <= |s|
    ensures NoDup(s[k..])
  {
  }

  lemma SoundAppend(p: Project, entries: set<File>, st: WalkState, c: seq<File>)
    requires Sound(p, entries, st) && Reported(p, entries, c) && |c| >= 2 && NoDup(Front(c))
    ensures Sound(p, entries, st.(circular := st.circular + [c]))
  {
    hide Reported, NoDup, Reachable;
    assert forall d :: d in st.circular + [c] <==> d in st.circular || d == c;
  }

  lemma {:induction false} VisitSound(p: Project, max: int, entries: set<File>, st: WalkState, f: File,
                                      path: seq<File>, depth: nat)
    requires FromEntry(p, entries, path + [f]) && NoDup(path) && Sound(p, entries, st)
    ensures Sound(p, entries, Visit(p, max, st, f, path, depth))
    decreases p.imports.Keys - st.visited, 0
  {
    var w := path + [f];
    if depth > max {
    } else if f in path {
      ReportSound(p, entries, st, f, path);
    } else if f !in st.visited {
      assert w[|w| - 1] == f;
      NoDupAppend(path, f);
      if f in p.imports {
        DependenciesAreEdges(p, f);
        var deps := Dependencies(p, f);
        VisitAllSound(p, max, entries, st.(visited := st.visited + {f}, nodes := st.nodes[f := deps]),
                      deps, w, depth + 1);
      }
    }
  }

  lemma {:induction false} VisitAllSound(p: Project, max: int, entries: set<File>, st: WalkState, deps: seq<File>,
                                         path: seq<File>, depth: nat)
    requires FromEntry(p, entries, path) && NoDup(path) && Sound(p, entries, st)
    requires forall g :: g in deps ==> Edge(p, path[|path| - 1], g)
    ensures Sound(p, entries, VisitAll(p, max, st, deps, path, depth))
    decreases p.imports.Keys - st.visited, |deps| + 1
  {
    if deps != [] {
      var g := deps[0];
      assert g in deps;
      WalkAppend(p, entries, path, g);
      VisitSound(p, max, entries, st, g, path, depth);
      var st' := Visit(p, max, st, g, path, depth);
      assert p.imports.Keys - st'.visited <= p.imports.Keys - st.visited;
      forall h | h in deps[1..] ensures Edge(p, path[|path| - 1], h) {
        InSplit(deps, h);
      }
      VisitAllSound(p, max, entries, st', deps[1..], path, depth);
    }
  }

  // ----- completeness: when the depth limit is at least the number of files -----

  /** Every file that is not on the current path has all its imports visited. */
  ghost predicate ClosedExcept(p: Project, visited: set<File>, path: seq<File>) {
    forall f, g :: f in visited && f !in path && Edge(p, f, g) ==> g in visited
  }

  /** The edge from f to g closes one of the reported cycles. */
  ghost predicate Closes(circular: seq<seq<File>>, f: File, g: File) {
    exists c :: c in circular && |c| >= 2 && c[|c| - 2] == f && c[|c| - 1] == g
  }

  ghost predicate ImportsIn(p: Project, circular: seq<seq<File>>, f: File, s: seq<File>) {
    forall g :: Edge(p, f, g) ==> g in s || Closes(circular, f, g)
  }

  /** Each finished file comes after everything it imports, closing edges aside. */
  ghost predicate Finished(p: Project, circular: seq<seq<File>>, fin: seq<File>) {
    forall i :: 0 <= i < |fin| ==> ImportsIn(p, circular, fin[i], fin[..i])
  }

  /** The visited files are the finished ones and the path. */
  ghost predicate FinishedSoFar(p: Project, st: WalkState, path: seq<File>, fin: seq<File>) {
    Finished(p, st.circular, fin) && forall f :: f in st.visited <==> f in fin || f in path
  }

  ghost predicate OnPath(p: Project, st: WalkState, path: seq<File>) {
    NoDup(path) && forall f :: f in path ==> f in st.visited && f in p.imports
  }

  lemma PathFits(p: Project, st: WalkState, path: seq<File>)
    requires OnPath(p, st, path)
    ensures |path| <= |p.imports|
  {
    NoDupCard(path);
    assert forall f :: f in Elems(path) ==> f in p.imports.Keys;
    SubsetCard(Elems(path), p.imports.Keys);
  }

  lemma FinishedMore(p: Project, circular: seq<seq<File>>, more: seq<seq<File>>, fin: seq<File>)
    requires Finished(p, circular, fin) && circular <= more
    ensures Finished(p, more, fin)
  {
    ClosesMore(circular, more);
    forall i | 0 <= i < |fin| ensures ImportsIn(p, more, fin[i], fin[..i]) {
      assert ImportsIn(p, circular, fin[i], fin[..i]);
    }
  }

  lemma ClosesMore(circular: seq<seq<File>>, more: seq<seq<File>>)
    requires circular <= more
    ensures forall f, g :: Closes(circular, f, g) ==> Closes(more, f, g)
  {
    forall f, g | Closes(circular, f, g) ensures Closes(more, f, g) {
      var c :| c in circular && |c| >= 2 && c[|c| - 2] == f && c[|c| - 1] == g;
      assert c in more;
    }
  }

  lemma FinishedAppend(p: Project, circular: seq<seq<File>>, fin: seq<File>, f: File)
    requires Finished(p, circular, fin) && ImportsIn(p, circular, f, fin)
    ensures Finished(p, circular, fin + [f])
  {
    var fin' := fin + [f];
    forall i | 0 <= i < |fin'| ensures ImportsIn(p, circular, fin'[i], fin'[..i]) {
      assert fin'[..i] == fin[..i];
      if i == |fin| {
        assert fin[..i] == fin;
      }
    }
  }

  /** A report closes with the edge from the end of the path. */
  lemma ReportCloses(circular: seq<seq<File>>, path: seq<File>, f: File)
    requires f in path
    ensures Closes(circular + [path[IndexOf(path, f)..] + [f]], Last(path), f)
  {
    var c := path[IndexOf(path, f)..] + [f];
    assert c in circular + [c];
    assert c[|c| - 2] == Last(path);
  }

  /** With enough depth, a visited file ends up finished, or on the path with the edge
      to it reported. */
  lemma {:induction false} VisitComplete(p: Project, max: int, st: WalkState, f: File, path: seq<File>, fin: seq<File>)
    returns (fin': seq<File>)
    requires max >= |p.imports| && OnPath(p, st, path)
    requires ClosedExcept(p, st.visited, path) && FinishedSoFar(p, st, path, fin)
    ensures var r := Visit(p, max, st, f, path, |path|);
            && f in r.visited && ClosedExcept(p, r.visited, path)
            && FinishedSoFar(p, r, path, fin')
            && fin <= fin' && (f in fin' || (path != [] && Closes(r.circular, Last(path), f)))
    decreases p.imports.Keys - st.visited, 0
  {
    fin' := fin;
    PathFits(p, st, path);
    if f in path {
      ReportCloses(st.circular, path, f);
      FinishedMore(p, st.circular, Visit(p, max, st, f, path, |path|).circular, fin);
    } else if f !in st.visited {
      var st1 := st.(visited := st.visited + {f});
      if f !in p.imports {
        fin' := fin + [f];
        FinishedAppend(p, st.circular, fin, f);
      } else {
        DependenciesAreEdges(p, f);
        var deps := Dependencies(p, f);
        var st2 := st1.(nodes := st.nodes[f := deps]);
        NoDupAppend(path, f);
        assert OnPath(p, st2, path + [f]);
        fin' := VisitAllComplete(p, max, st2, deps, path + [f], fin);
        var r := VisitAll(p, max, st2, deps, path + [f], |path + [f]|);
        FinishedAppend(p, r.circular, fin', f);
        assert ClosedExcept(p, r.visited, path);
        fin' := fin' + [f];
      }
    }
  }

  lemma {:induction false} VisitAllComplete(p: Project, max: int, st: WalkState, deps: seq<File>, path: seq<File>,
                                            fin: seq<File>)
    returns (fin': seq<File>)
    requires max >= |p.imports| && OnPath(p, st, path) && path != []
    requires ClosedExcept(p, st.visited, path) && FinishedSoFar(p, st, path, fin)
    ensures var r := VisitAll(p, max, st, deps, path, |path|);
            && (forall g :: g in deps ==> g in r.visited) && ClosedExcept(p, r.visited, path)
            && FinishedSoFar(p, r, path, fin')
            && fin <= fin' && (forall g :: g in deps ==> g in fin' || Closes(r.circular, Last(path), g))
    decreases p.imports.Keys - st.visited, |deps| + 1
  {
    fin' := fin;
    if deps != [] {
      var fin1 := VisitComplete(p, max, st, deps[0], path, fin);
      var st' := Visit(p, max, st, deps[0], path, |path|);
      assert p.imports.Keys - st'.visited <= p.imports.Keys - st.visited;
      fin' := VisitAllComplete(p, max, st', deps[1..], path, fin1);
      ClosesMore(st'.circular, VisitAll(p, max, st', deps[1..], path, |path|).circular);
      forall g | g in deps ensures g == deps[0] || g in deps[1..] {
        InSplit(deps, g);
      }
    }
  }

  /** Along a walk without closing edges, positions in a finished order strictly fall. */
  lemma {:induction false} WalkDescends(p: Project, circular: seq<seq<File>>, fin: seq<File>, w: seq<File>, n: nat)
    requires Finished(p, circular, fin) && n <= |fin| && w != [] && IsWalk(p, w) && w[0] in fin[..n]
    requires forall i :: 0 < i < |w| ==> !Closes(circular, w[i - 1], w[i])
    ensures forall i :: 0 <= i < |w| ==> w[i] in fin[..n]
    ensures forall i :: 0 < i < |w| ==> w[i] != w[0]
    decreases n
  {
    var m := IndexOf(fin[..n], w[0]);
    assert fin[m] == w[0] && fin[..n][..m] == fin[..m];
    if |w| > 1 {
      assert Edge(p, w[0], w[1]) && !Closes(circular, w[0], w[1]);
      assert ImportsIn(p, circular, fin[m], fin[..m]);
      var t := w[1..];
      forall i | 0 < i < |t| ensures Edge(p, t[i - 1], t[i]) && !Closes(circular, t[i - 1], t[i]) {
        assert Edge(p, w[i], w[i + 1]) && !Closes(circular, w[i], w[i + 1]);
      }
      WalkDescends(p, circular, fin, t, m);
      forall i | 0 < i < |w| ensures w[i] in fin[..n] && w[i] != w[0] {
        assert w[i] == t[i - 1];
        assert t[i - 1] in fin[..m];
        var k :| 0 <= k < m && fin[..m][k] == w[i];
        assert fin[..n][k] == w[i];
      }
    }
  }

  /** Some edge of the cycle at the end of the lasso closes a reported cycle. */
  ghost predicate CaughtBy(circular: seq<seq<File>>, w: seq<File>, k: nat) {
    exists i :: k < i < |w| && Closes(circular, w[i - 1], w[i])
  }

  /** Among finished files, every cycle contains the closing edge of a report. */
  lemma FinishedCatches(p: Project, entries: set<File>, circular: seq<seq<File>>, fin: seq<File>,
                        w: seq<File>, k: nat)
    requires Finished(p, circular, fin) && Lasso(p, entries, w, k) && w[k] in fin
    ensures CaughtBy(circular, w, k)
  {
    if !CaughtBy(circular, w, k) {
      var t := w[k..];
      forall i | 0 < i < |t| ensures Edge(p, t[i - 1], t[i]) && !Closes(circular, t[i - 1], t[i]) {
        assert Edge(p, w[k + i - 1], w[k + i]);
        assert !Closes(circular, w[k + i - 1], w[k + i]);
      }
      assert fin[..|fin|] == fin;
      WalkDescends(p, circular, fin, t, |fin|);
    }
  }

  lemma LassoReaches(p: Project, entries: set<File>, w: seq<File>, k: nat)
    requires Lasso(p, entries, w, k)
    ensures Reachable(p, entries, w[k])
  {
    var v := w[..k + 1];
    forall i | 0 < i < |v| ensures Edge(p, v[i - 1], v[i]) {
      assert Edge(p, w[i - 1], w[i]);
    }
    assert FromEntry(p, entries, v) && v[|v| - 1] == w[k];
  }

  /** Everything reachable is visited once the visited set is closed under imports. */
  lemma {:induction false} ClosedMeansVisited(p: Project, entries: set<File>, visited: set<File>, w: seq<File>)
    requires ClosedExcept(p, visited, []) && FromEntry(p, entries, w) && entries <= visited
    ensures w[|w| - 1] in visited
  {
    if |w| > 1 {
      var front := w[..|w| - 1];
      assert FromEntry(p, entries, front) by {
        forall i | 0 < i < |front| ensures Edge(p, front[i - 1], front[i]) {
          assert Edge(p, w[i - 1], w[i]);
        }
      }
      ClosedMeansVisited(p, entries, visited, front);
      assert Edge(p, w[|w| - 2], w[|w| - 1]);
    }
  }

  lemma ReachableIsVisited(p: Project, entries: seq<File>, visited: set<File>)
    requires ClosedExcept(p, visited, []) && forall e :: e in entries && e in p.present ==> e in visited
    ensures forall f :: Reachable(p, Roots(p, entries), f) ==> f in visited
  {
    assert forall e :: e in Roots(p, entries) ==> e in visited;
    forall f | Reachable(p, Roots(p, entries), f) ensures f in visited {
      var w :| FromEntry(p, Roots(p, entries), w) && w[|w| - 1] == f;
      ClosedMeansVisited(p, Roots(p, entries), visited, w);
    }
  }

  lemma {:induction false} BuildSound(p: Project, max: int, all: set<File>, st: WalkState, entries: seq<File>)
    requires Sound(p, all, st) && forall e :: e in entries && e in p.present ==> e in all
    ensures Sound(p, all, Build(p, max, st, entries))
    decreases |entries|
  {
    if entries != [] {
      var e := entries[0];
      assert e in entries;
      assert forall e' :: e' in entries[1..] ==> e' in entries;
      if e in p.present {
        WalkAppend(p, all, [], e);
        assert [] + [e] == [e];
        VisitSound(p, max, all, st, e, [], 0);
        BuildSound(p, max, all, Visit(p, max, st, e, [], 0), entries[1..]);
      } else {
        BuildSound(p, max, all, st, entries[1..]);
      }
    }
  }

  lemma {:induction false} BuildComplete(p: Project, max: int, st: WalkState, entries: seq<File>, fin: seq<File>)
    returns (fin': seq<File>)
    requires max >= |p.imports| && ClosedExcept(p, st.visited, []) && FinishedSoFar(p, st, [], fin)
    ensures var r := Build(p, max, st, entries);
            && ClosedExcept(p, r.visited, []) && st.visited <= r.visited
            && (forall e :: e in entries && e in p.present ==> e in r.visited)
            && FinishedSoFar(p, r, [], fin')
    decreases |entries|
  {
    fin' := fin;
    if entries != [] {
      if entries[0] in p.present {
        fin' := VisitComplete(p, max, st, entries[0], [], fin);
        fin' := BuildComplete(p, max, Visit(p, max, st, entries[0], [], 0), entries[1..], fin');
      } else {
        fin' := BuildComplete(p, max, st, entries[1..], fin);
      }
      forall e | e in entries ensures e == entries[0] || e in entries[1..] {
        InSplit(entries, e);
      }
    }
  }

  /** At any depth limit: each reported list is a closed walk of real imports at the
      end of a walk from an entry point, and only reachable files get nodes. */
  lemma ReportsAreCycles(p: Project, max: int, entries: seq<File>)
    ensures Sound(p, Roots(p, entries), Build(p, max, Fresh, entries))
    ensures Build(p, max, Fresh, entries).circular != [] ==> HasCycle(p, Roots(p, entries))
    ensures forall c :: c in Build(p, max, Fresh, entries).circular ==>
              |c| >= 2 && c[0] == c[|c| - 1] && IsWalk(p, c) && NoDup(Front(c))
  {
    var st := Build(p, max, Fresh, entries);
    BuildSound(p, max, Roots(p, entries), Fresh, entries);
    if st.circular != [] {
      assert st.circular[0] in st.circular;
      var w, k: nat :| Lasso(p, Roots(p, entries), w, k) && st.circular[0] == w[k..];
    }
    forall c | c in st.circular ensures |c| >= 2 && c[0] == c[|c| - 1] && IsWalk(p, c) && NoDup(Front(c)) {
      var w, k: nat :| Lasso(p, Roots(p, entries), w, k) && c == w[k..];
      forall i | 0 < i < |c| ensures Edge(p, c[i - 1], c[i]) {
        assert Edge(p, w[k + i - 1], w[k + i]);
      }
    }
  }

  /** Cycle detection is exact: the walk reports something iff the reachable import graph has a cycle. */
  ghost predicate Detects(p: Project, max: int, entries: seq<File>) {
    Build(p, max, Fresh, entries).circular != [] <==> HasCycle(p, Roots(p, entries))
  }

  lemma SoundParts(p: Project, entries: set<File>, st: WalkState)
    requires Sound(p, entries, st)
    ensures forall f :: f in st.nodes <==> f in p.imports && f in st.visited
    ensures forall f :: f in st.visited ==> Reachable(p, entries, f)
  {
  }

  lemma FreshStart(p: Project)
    ensures ClosedExcept(p, Fresh.visited, []) && FinishedSoFar(p, Fresh, [], [])
  {
  }

  lemma AllFinished(p: Project, st: WalkState, fin: seq<File>)
    requires FinishedSoFar(p, st, [], fin)
    ensures Finished(p, st.circular, fin) && forall f :: f in st.visited <==> f in fin
  {
  }

  /** Every cycle below the entry points contains the closing edge of a report. */
  ghost predicate CatchesAll(p: Project, entries: set<File>, circular: seq<seq<File>>) {
    forall w, k: nat :: Lasso(p, entries, w, k) ==> CaughtBy(circular, w, k)
  }

  /** With a depth limit of at least the number of files, the reports are complete:
      without their closing edges, the reachable import graph has no cycle. */
  lemma ReportsCatchAll(p: Project, max: int, entries: seq<File>)
    requires max >= |p.imports|
    ensures CatchesAll(p, Roots(p, entries), Build(p, max, Fresh, entries).circular)
    ensures forall f :: Reachable(p, Roots(p, entries), f) ==> f in Build(p, max, Fresh, entries).visited
  {
    hide Build, FinishedSoFar, ClosedExcept, FromEntry, Finished;
    var st, all := Build(p, max, Fresh, entries), Roots(p, entries);
    FreshStart(p);
    var fin := BuildComplete(p, max, Fresh, entries, []);
    AllFinished(p, st, fin);
    ReachableIsVisited(p, entries, st.visited);
    forall w, k: nat | Lasso(p, all, w, k) ensures CaughtBy(st.circular, w, k) {
      LassoReaches(p, all, w, k);
      FinishedCatches(p, all, st.circular, fin, w, k);
    }
  }

  /** With a depth limit of at least the number of files, detection is exact and the
      nodes are exactly the reachable supported files with their imports. */
  lemma DetectionExact(p: Project, max: int, entries: seq<File>)
    requires max >= |p.imports|
    ensures Detects(p, max, entries)
    ensures var nodes := Build(p, max, Fresh, entries).nodes;
            forall f :: f in nodes <==> f in p.imports && Reachable(p, Roots(p, entries), f)
  {
    hide Build, Sound, FromEntry;
    var st := Build(p, max, Fresh, entries);
    ReportsAreCycles(p, max, entries);
    SoundParts(p, Roots(p, entries), st);
    ReportsCatchAll(p, max, entries);
    NoReportsNoCycle(p, Roots(p, entries));
  }

  lemma NoReportsNoCycle(p: Project, entries: set<File>)
    ensures CatchesAll(p, entries, []) ==> !HasCycle(p, entries)
  {
    assert forall w, k: nat :: !CaughtBy([], w, k);
  }

  // ----- no cycle is reported twice -----

  /** The edges that close two reports differ, and start in files that were visited. */
  ghost predicate OncePerEdge(st: WalkState) {
    && (forall c :: c in st.circular ==> |c| >= 2 && c[|c| - 2] in st.visited)
    && (forall i, j :: 0 <= i < j < |st.circular| ==> !SameClosing(st.circular[i], st.circular[j]))
  }

  ghost predicate SameClosing(c: seq<File>, d: seq<File>) {
    |c| >= 2 && |d| >= 2 && c[|c| - 2] == d[|d| - 2] && c[|c| - 1] == d[|d| - 1]
  }

  /** What closes now and did not before starts in a new file, or is this edge. */
  ghost predicate NewClosings(st: WalkState, r: WalkState, from: seq<File>, to: seq<File>) {
    forall a, b :: Closes(r.circular, a, b) && !Closes(st.circular, a, b) ==>
      a !in st.visited || (from != [] && a == Last(from) && b in to)
  }

  lemma ClosesFromVisited(st: WalkState)
    requires OncePerEdge(st)
    ensures forall a, b :: Closes(st.circular, a, b) ==> a in st.visited
  {
  }

  lemma ReportOnce(st: WalkState, path: seq<File>, f: File)
    requires OncePerEdge(st) && f in path && Last(path) in st.visited && !Closes(st.circular, Last(path), f)
    ensures var r := st.(circular := st.circular + [path[IndexOf(path, f)..] + [f]]);
            OncePerEdge(r) && NewClosings(st, r, path, [f])
  {
    var c := path[IndexOf(path, f)..] + [f];
    var circular := st.circular + [c];
    assert c[|c| - 2] == Last(path) && c[|c| - 1] == f;
    forall i, j | 0 <= i < j < |circular| ensures !SameClosing(circular[i], circular[j]) {
      if j == |st.circular| {
        var d := st.circular[i];
        assert d in st.circular;
      }
    }
    forall a, b | Closes(circular, a, b) && !Closes(st.circular, a, b) ensures a == Last(path) && b == f {
      var d :| d in circular && |d| >= 2 && d[|d| - 2] == a && d[|d| - 1] == b;
      assert d in st.circular || d == c;
    }
  }

  lemma {:induction false} VisitOnce(p: Project, max: int, st: WalkState, f: File, path: seq<File>, depth: nat)
    requires OncePerEdge(st) && forall g :: g in path ==> g in st.visited
    requires path != [] ==> !Closes(st.circular, Last(path), f)
    ensures var r := Visit(p, max, st, f, path, depth);
            OncePerEdge(r) && NewClosings(st, r, path, [f])
    decreases p.imports.Keys - st.visited, 0
  {
    if depth > max {
    } else if f in path {
      ReportOnce(st, path, f);
    } else if f !in st.visited && f in p.imports {
      DependenciesAreEdges(p, f);
      var deps := Dependencies(p, f);
      var st2 := st.(visited := st.visited + {f}, nodes := st.nodes[f := deps]);
      ClosesFromVisited(st);
      VisitAllOnce(p, max, st2, deps, path + [f], depth + 1);
    }
  }

  lemma {:induction false} VisitAllOnce(p: Project, max: int, st: WalkState, deps: seq<File>, path: seq<File>,
                                        depth: nat)
    requires OncePerEdge(st) && path != [] && NoDup(deps) && forall g :: g in path ==> g in st.visited
    requires forall g :: g in deps ==> !Closes(st.circular, Last(path), g)
    ensures var r := VisitAll(p, max, st, deps, path, depth);
            OncePerEdge(r) && NewClosings(st, r, path, deps)
    decreases p.imports.Keys - st.visited, |deps| + 1
  {
    if deps != [] {
      var g, rest := deps[0], deps[1..];
      assert g in deps;
      VisitOnce(p, max, st, g, path, depth);
      var st' := Visit(p, max, st, g, path, depth);
      assert p.imports.Keys - st'.visited <= p.imports.Keys - st.visited;
      assert g !in rest;
      forall h | h in rest ensures !Closes(st'.circular, Last(path), h) {
        assert h in deps && h != g;
      }
      VisitAllOnce(p, max, st', rest, path, depth);
      var r := VisitAll(p, max, st', rest, path, depth);
      forall a, b | Closes(r.circular, a, b) && !Closes(st.circular, a, b)
        ensures a !in st.visited || (a == Last(path) && b in deps)
      {
        if !Closes(st'.circular, a, b) {
          assert b in rest ==> b in deps;
        }
      }
    }
  }

  lemma {:induction false} BuildOnce(p: Project, max: int, st: WalkState, entries: seq<File>)
    requires OncePerEdge(st)
    ensures OncePerEdge(Build(p, max, st, entries))
    decreases |entries|
  {
    if entries != [] {
      if entries[0] in p.present {
        VisitOnce(p, max, st, entries[0], [], 0);
        BuildOnce(p, max, Visit(p, max, st, entries[0], [], 0), entries[1..]);
      } else {
        BuildOnce(p, max, st, entries[1..]);
      }
    }
  }

  /** At any depth limit, no two reports are closed by the same import. */
  lemma ReportsOnce(p: Project, max: int, entries: seq<File>)
    ensures OncePerEdge(Build(p, max, Fresh, entries))
  {
    BuildOnce(p, max, Fresh, entries);
  }

  // ----- the depth bound cannot be lowered -----

  function Upto(n: nat): seq<File> {
    seq(n, i => i)
  }

  /** n files, each importing the next and the last importing the first. */
  function Ring(n: nat): Project {
    Project(map i | i in Upto(n) :: [Some(if i == n - 1 then 0 else i + 1)], {0})
  }

  lemma {:induction false} RingMissed(n: nat, st: WalkState, i: nat)
    requires i < n && st.circular == [] && st.visited == Elems(Upto(i))
    ensures Visit(Ring(n), n - 1, st, i, Upto(i), i).circular == []
    decreases n - i
  {
    var p := Ring(n);
    var next := if i == n - 1 then 0 else i + 1;
    assert i !in Upto(i) && Upto(n)[i] == i;
    assert i in Upto(n);
    assert p.imports[i] == [Some(next)];
    assert Dependencies(p, i) == [next] by {
      assert Dedup([Some(next)], []) == Dedup([Some(next)][1..], [next]);
    }
    assert Upto(i) + [i] == Upto(i + 1);
    var st1 := st.(visited := st.visited + {i}, nodes := st.nodes[i := [next]]);
    assert st1.visited == Elems(Upto(i + 1));
    var st2 := Visit(p, n - 1, st1, next, Upto(i + 1), i + 1);
    assert VisitAll(p, n - 1, st1, [next], Upto(i + 1), i + 1) == VisitAll(p, n - 1, st2, [], Upto(i + 1), i + 1);
    if i < n - 1 {
      RingMissed(n, st1, i + 1);
    }
  }

  lemma RingHasCycle(n: nat)
    requires n >= 1
    ensures HasCycle(Ring(n), {0})
  {
    var w := Upto(n) + [0];
    forall i | 0 < i < |w| ensures Edge(Ring(n), w[i - 1], w[i]) {
      assert w[i - 1] == i - 1;
      assert Ring(n).imports[i - 1] == [Some(w[i])];
    }
    assert Lasso(Ring(n), {0}, w, 0);
  }

  lemma RingSize(n: nat)
    ensures |Ring(n).imports| == n
  {
    assert Ring(n).imports.Keys == Elems(Upto(n)) by {
      forall i ensures i in Ring(n).imports.Keys <==> i in Elems(Upto(n)) {
        if 0 <= i < n {
          assert Upto(n)[i] == i;
        }
      }
    }
    NoDupCard(Upto(n));
  }

  /** Detection is exact on all projects of at most n files iff the limit is at least n;
      the default limit of 50 is exact up to 50 files. */
  lemma DepthBoundIsTight(n: nat, max: int)
    requires n >= 1
    ensures (forall p: Project, entries: seq<File> :: |p.imports| <= n ==> Detects(p, max, entries)) <==> max >= n
  {
    if max >= n {
      forall p: Project, entries: seq<File> | |p.imports| <= n ensures Detects(p, max, entries) {
        DetectionExact(p, max, entries);
      }
    } else {
      var m := if max < 0 then 1 else max + 1;
      RingSize(m);
      RingHasCycle(m);
      var entries: seq<File> := [0];
      assert Roots(Ring(m), entries) == {0};
      if max >= 0 {
        var none: seq<File> := [];
        assert Upto(0) == none && Elems(none) == {};
        RingMissed(m, Fresh, 0);
      }
      assert Build(Ring(m), max, Fresh, entries) == Visit(Ring(m), max, Fresh, 0, [], 0);
      assert !Detects(Ring(m), max, entries);
    }
  }

  // ----- the walk in the program's form -----

  class Walk {
    const project: Project
    const maxDepth: int
    var nodes: map<File, seq<File>>
    var visited: set<File>
    var circularDeps: seq<seq<File>>

    ghost function St(): WalkState
      reads this
    {
      WalkState(nodes, visited, circularDeps)
    }

    constructor (project: Project, maxDepth: int)
      ensures this.project == project && this.maxDepth == maxDepth && St() == Fresh
    {
      this.project, this.maxDepth := project, maxDepth;
      nodes, visited, circularDeps := map[], {}, [];
    }

    /** The depth-first visit of one file; it terminates although the path is tested
        before `visited`. */
    method WalkDependencies(file: File, currentPath: seq<File>, depth: nat)
      modifies this
      ensures St() == Visit(project, maxDepth, old(St()), file, currentPath, depth)
      decreases project.imports.Keys - visited, 0
    {
      if depth > maxDepth {
        return;
      }
      if file in currentPath {
        circularDeps := circularDeps + [currentPath[IndexOf(currentPath, file)..] + [file]];
        return;
      }
      if file in visited {
        return;
      }
      visited := visited + {file};
      if file !in project.imports {
        return;
      }
      var dependencies := Resolve(project.imports[file]);
      nodes := nodes[file := dependencies];
      var newPath := currentPath + [file];
      ghost var st := St();
      for i := 0 to |dependencies|
        invariant st.visited <= visited
        invariant VisitAll(project, maxDepth, St(), dependencies[i..], newPath, depth + 1) ==
                  VisitAll(project, maxDepth, st, dependencies, newPath, depth + 1)
      {
        assert dependencies[i..][1..] == dependencies[i + 1..];
        WalkDependencies(dependencies[i], newPath, depth + 1);
      }
    }

    /** Every existing entry point is walked in turn. */
    method BuildDependencyGraph(entries: seq<File>)
      requires St() == Fresh
      modifies this
      ensures St() == Build(project, maxDepth, Fresh, entries)
      ensures Sound(project, Roots(project, entries), St())
      ensures maxDepth >= |project.imports| ==> (circularDeps == [] <==> !HasCycle(project, Roots(project, entries)))
      ensures maxDepth >= |project.imports| ==> CatchesAll(project, Roots(project, entries), circularDeps)
      ensures OncePerEdge(St())
    {
      for i := 0 to |entries|
        invariant Build(project, maxDepth, St(), entries[i..]) == Build(project, maxDepth, Fresh, entries)
      {
        assert entries[i..][1..] == entries[i + 1..];
        if entries[i] !in project.present {
          continue;
        }
        WalkDependencies(entries[i], [], 0);
      }
      ReportsAreCycles(project, maxDepth, entries);
      ReportsOnce(project, maxDepth, entries);
      if maxDepth >= |project.imports| {
        DetectionExact(project, maxDepth, entries);
        ReportsCatchAll(project, maxDepth, entries);
      }
    }
  }

  /** Resolved imports without repetitions, in order of first occurrence. */
  method Resolve(imports: seq<Option<File>>) returns (dependencies: seq<File>)
    ensures dependencies == Dedup(imports, [])
  {
    dependencies := [];
    for i := 0 to |imports|
      invariant Dedup(imports[i..], dependencies) == Dedup(imports, [])
    {
      assert imports[i..][1..] == imports[i + 1..];
      if imports[i].Some? && imports[i].value !in dependencies {
        dependencies := dependencies + [imports[i].value];
      }
    }
  }
}
