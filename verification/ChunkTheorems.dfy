/** When the chunks hold each line exactly once, and what they do to symbols. */
module ChunkTheorems {
  import opened Common
  import opened CastChunker

  /** Number of pieces that hold the line. */
  ghost function Holders(pieces: seq<Piece>, line: int): nat {
    if pieces == [] then 0
    else (if Holds(pieces[0].region, line) then 1 else 0) + Holders(pieces[1..], line)
  }

  lemma {:induction false} HoldersConcat(a: seq<Piece>, b: seq<Piece>, line: int)
    ensures Holders(a + b, line) == Holders(a, line) + Holders(b, line)
    decreases |a|
  {
    if a == [] {
      assert a + b == b;
    } else {
      HoldersConcat(a[1..], b, line);
      assert (a + b)[1..] == a[1..] + b;
    }
  }

  lemma {:induction false} CoveredIsHeld(pieces: seq<Piece>, line: int)
    requires Covered(pieces, line)
    ensures Holders(pieces, line) >= 1
    decreases |pieces|
  {
    var q :| q in pieces && Holds(q.region, line);
    InSplit(pieces, q);
    if !Holds(pieces[0].region, line) {
      assert Covered(pieces[1..], line);
      CoveredIsHeld(pieces[1..], line);
    }
  }

  /** In a tiling each line has exactly one holder. */
  lemma {:induction false} TilesHoldOnce(pieces: seq<Piece>, a: int, b: int, line: int)
    requires Tiles(pieces, a, b)
    ensures Holders(pieces, line) == if a <= line <= b then 1 else 0
    ensures a <= b + 1
    decreases |pieces|
  {
    if pieces != [] {
      TilesHoldOnce(pieces[1..], pieces[0].region.end + 1, b, line);
    }
  }

  // ----- symbols that overlap -----

  ghost predicate AllWithin(syms: seq<Symbol>, r: Region) {
    forall s :: s in syms ==> Within(RegionOf(s), r)
  }

  /** Every symbol in the region is a root or strictly inside one. */
  lemma {:induction false} RootAbove(r: Region, syms: seq<Symbol>, u: Symbol) returns (x: Symbol)
    requires Prepared(syms) && AllWithin(syms, r) && u in syms
    ensures x in Roots(r, syms, syms) && x in syms && (x == u || StrictlyContains(x, u))
    decreases (r.end - r.start) - (u.endLine - u.startLine)
  {
    RootsSpec(r, syms, syms);
    if HasContainer(u, syms) {
      var p :| p in syms && p != u && StrictlyContains(p, u);
      assert Within(RegionOf(p), r);
      x := RootAbove(r, syms, p);
    } else {
      x := u;
    }
  }

  lemma {:induction false} RootHasBlock(cursor: int, roots: seq<Symbol>, end: int, x: Symbol)
    requires x in roots
    ensures Block(RegionOf(x), Some(x)) in Blocks(cursor, roots, end)
    decreases |roots|
  {
    InSplit(roots, x);
    if x != roots[0] {
      RootHasBlock(roots[0].endLine + 1, roots[1..], end, x);
    }
  }

  ghost predicate AllOversized(c: Config, blocks: seq<Block>) {
    forall b :: b in blocks ==> Oversized(c, b.region)
  }

  lemma OversizedHead(c: Config, blocks: seq<Block>, syms: seq<Symbol>, line: int)
    requires FromSymbols(blocks, syms) && AllOversized(c, blocks) && blocks != []
    ensures blocks[0].sym.Some? ==> blocks[0].sym.value in syms
    ensures FromSymbols(blocks[1..], syms) && AllOversized(c, blocks[1..])
    ensures Holders(PackBlocks(c, blocks, syms, None), line) ==
            Holders(PackOversized(c, blocks[0], syms), line) + Holders(PackBlocks(c, blocks[1..], syms, None), line)
  {
    assert blocks[0] in blocks;
    FromHead(blocks, syms);
    assert forall b :: b in blocks[1..] ==> b in blocks;
    var a, b := PackOversized(c, blocks[0], syms), PackBlocks(c, blocks[1..], syms, None);
    assert [] + a + b == a + b;
    HoldersConcat(a, b, line);
  }

  /** When every block is decomposed, the holders inside one block count. */
  lemma {:induction false} OneBlockHolds(c: Config, blocks: seq<Block>, syms: seq<Symbol>, b: Block, line: int)
    requires FromSymbols(blocks, syms) && AllOversized(c, blocks) && b in blocks
    ensures b.sym.Some? ==> b.sym.value in syms
    ensures Holders(PackBlocks(c, blocks, syms, None), line) >= Holders(PackOversized(c, b, syms), line)
    decreases |blocks|
  {
    OversizedHead(c, blocks, syms, line);
    InSplit(blocks, b);
    if b != blocks[0] {
      OneBlockHolds(c, blocks[1..], syms, b, line);
    }
  }

  /** ... and so do the holders inside two different blocks. */
  lemma {:induction false} TwoBlocksHold(c: Config, blocks: seq<Block>, syms: seq<Symbol>, a: Block, b: Block,
                                         line: int)
    requires FromSymbols(blocks, syms) && AllOversized(c, blocks) && a in blocks && b in blocks && a != b
    ensures a.sym.Some? ==> a.sym.value in syms
    ensures b.sym.Some? ==> b.sym.value in syms
    ensures Holders(PackBlocks(c, blocks, syms, None), line) >=
            Holders(PackOversized(c, a, syms), line) + Holders(PackOversized(c, b, syms), line)
    decreases |blocks|
  {
    OversizedHead(c, blocks, syms, line);
    InSplit(blocks, a);
    InSplit(blocks, b);
    if a == blocks[0] {
      OneBlockHolds(c, blocks[1..], syms, b, line);
    } else if b == blocks[0] {
      OneBlockHolds(c, blocks[1..], syms, a, line);
    } else {
      TwoBlocksHold(c, blocks[1..], syms, a, b, line);
    }
  }

  ghost predicate Clash(s: Symbol, t: Symbol) {
    s != t && !Disjoint(RegionOf(s), RegionOf(t)) && !StrictlyContains(s, t) && !StrictlyContains(t, s)
  }

  /** Every line of the text exceeds the budget by itself. */
  ghost predicate Heavy(c: Config) {
    forall i :: 0 <= i < |c.lines| ==> LineSize(c.lines[i]) > c.maxNonWs
  }

  ghost predicate InText(c: Config, r: Region) {
    1 <= r.start && r.end <= |c.lines|
  }

  lemma HeavyRegion(c: Config, r: Region)
    requires Heavy(c) && InText(c, r) && r.start <= r.end
    ensures Oversized(c, r)
  {
    var s := Slice(c.lines, r);
    assert s[|s| - 1] == c.lines[r.end - 1];
  }

  lemma BlocksReady(c: Config, r: Region, syms: seq<Symbol>)
    requires Prepared(syms) && Heavy(c) && InText(c, r)
    ensures var blocks := Blocks(r.start, Roots(r, syms, syms), r.end);
            Ordered(blocks, r) && FromSymbols(blocks, syms) && AllOversized(c, blocks)
  {
    var roots := Roots(r, syms, syms);
    RootsAscend(r, syms);
    BlocksOrdered(r.start, roots, r);
    BlocksFromSymbols(r.start, roots, r.end, syms);
    forall b | b in Blocks(r.start, roots, r.end) ensures Oversized(c, b.region) {
      HeavyRegion(c, b.region);
    }
  }

  /** Two different roots that share a line put it in two pieces. */
  lemma RootsShare(c: Config, r: Region, syms: seq<Symbol>, x: Symbol, y: Symbol, line: int)
    requires Prepared(syms) && Heavy(c) && InText(c, r)
    requires x in Roots(r, syms, syms) && y in Roots(r, syms, syms) && x != y
    requires Holds(RegionOf(x), line) && Holds(RegionOf(y), line)
    ensures Holders(Pack(c, r, syms), line) >= 2
  {
    var roots := Roots(r, syms, syms);
    var blocks := Blocks(r.start, roots, r.end);
    BlocksReady(c, r, syms);
    RootHasBlock(r.start, roots, r.end, x);
    RootHasBlock(r.start, roots, r.end, y);
    var a, b := Block(RegionOf(x), Some(x)), Block(RegionOf(y), Some(y));
    TwoBlocksHold(c, blocks, syms, a, b, line);
    PackOversizedGood(c, a, syms, RegionOf(x));
    PackOversizedGood(c, b, syms, RegionOf(y));
    CoveredIsHeld(PackOversized(c, a, syms), line);
    CoveredIsHeld(PackOversized(c, b, syms), line);
  }

  /** A clash below one root shows in the whole region. */
  lemma RootClash(c: Config, r: Region, syms: seq<Symbol>, x: Symbol, line: int)
    requires Prepared(syms) && Heavy(c) && InText(c, r)
    requires x in Roots(r, syms, syms) && x in syms && Children(x, syms) != []
    requires Holders(Pack(c, RegionOf(x), Children(x, syms)), line) >= 2
    ensures Holders(Pack(c, r, syms), line) >= 2
  {
    var roots := Roots(r, syms, syms);
    var blocks := Blocks(r.start, roots, r.end);
    BlocksReady(c, r, syms);
    RootHasBlock(r.start, roots, r.end, x);
    var b := Block(RegionOf(x), Some(x));
    assert PackOversized(c, b, syms) == Pack(c, RegionOf(x), Children(x, syms));
    OneBlockHolds(c, blocks, syms, b, line);
  }

  /** When no line fits the budget, two clashing symbols put some line in two pieces. */
  lemma {:induction false} ClashHeldTwice(c: Config, r: Region, syms: seq<Symbol>, s: Symbol, t: Symbol)
    returns (line: int)
    requires Prepared(syms) && AllWithin(syms, r) && Heavy(c) && InText(c, r)
    requires s in syms && t in syms && Clash(s, t)
    ensures Holds(r, line) && Holders(Pack(c, r, syms), line) >= 2
    decreases |syms|
  {
    hide Pack, Holders, Prepared, Roots;
    var x := RootAbove(r, syms, s);
    var y := RootAbove(r, syms, t);
    SharedLine(r, syms, s, t);
    if x != y {
      line := if s.startLine >= t.startLine then s.startLine else t.startLine;
      RootsShare(c, r, syms, x, y, line);
    } else {
      ChildrenPrepared(x, syms);
      ChildOf(x, syms, s);
      ChildOf(x, syms, t);
      ChildrenWithin(x, syms);
      RootInRegion(r, syms, x);
      line := ClashHeldTwice(c, RegionOf(x), Children(x, syms), s, t);
      RootClash(c, r, syms, x, line);
    }
  }

  lemma RootInRegion(r: Region, syms: seq<Symbol>, x: Symbol)
    requires AllWithin(syms, r) && x in syms
    ensures Within(RegionOf(x), r)
  {
  }

  lemma SharedLine(r: Region, syms: seq<Symbol>, s: Symbol, t: Symbol)
    requires Prepared(syms) && AllWithin(syms, r) && s in syms && t in syms && Clash(s, t)
    ensures var line := if s.startLine >= t.startLine then s.startLine else t.startLine;
            Holds(RegionOf(s), line) && Holds(RegionOf(t), line) && Holds(r, line)
    ensures Holds(r, s.startLine) && Holds(r, t.startLine)
    ensures Holds(RegionOf(s), s.startLine) && Holds(RegionOf(t), t.startLine)
  {
    assert WellFormed(s) && WellFormed(t);
    assert Within(RegionOf(s), r) && Within(RegionOf(t), r);
  }

  lemma ChildOf(x: Symbol, syms: seq<Symbol>, s: Symbol)
    requires Prepared(syms) && s in syms && s != x && StrictlyContains(x, s)
    ensures s in Children(x, syms) && Children(x, syms) != []
  {
    ChildrenSpec(x, syms);
  }

  lemma ChildrenWithin(x: Symbol, syms: seq<Symbol>)
    requires Prepared(syms)
    ensures AllWithin(Children(x, syms), RegionOf(x))
  {
    ChildrenSpec(x, syms);
  }

  lemma LaminarMeansNoClash(syms: seq<Symbol>)
    ensures Laminar(syms) <==> forall s, t :: s in syms && t in syms ==> !Clash(s, t)
  {
  }

  // ----- symbols that the packing of a region looks at -----

  ghost predicate UnderRoot(r: Region, syms: seq<Symbol>, u: Symbol) {
    exists x :: x in Roots(r, syms, syms) && (x == u || Within(RegionOf(u), RegionOf(x)))
  }

  /** The symbols of `rest` that are roots of the region or lie inside one. A symbol that
      leaves the region is not among them, nor is one that only such a symbol holds. */
  ghost function Seen(r: Region, syms: seq<Symbol>, rest: seq<Symbol>): (seen: seq<Symbol>)
    ensures forall s :: s in seen <==> s in rest && UnderRoot(r, syms, s)
  {
    if rest == [] then []
    else
      InSplit(rest, rest[0]);
      (if UnderRoot(r, syms, rest[0]) then [rest[0]] else []) + Seen(r, syms, rest[1..])
  }

  lemma {:induction false} SeenPrepared(r: Region, syms: seq<Symbol>, rest: seq<Symbol>)
    requires Prepared(rest)
    ensures Prepared(Seen(r, syms, rest)) && PrefixOrder(Seen(r, syms, rest), rest)
  {
    if rest != [] {
      assert forall s :: s in rest[1..] ==> s in rest;
      SeenPrepared(r, syms, rest[1..]);
      FirstBefore(rest, Seen(r, syms, rest[1..]));
    }
  }

  /** What is seen has a container iff it has one that is seen. */
  lemma SeenContainer(r: Region, syms: seq<Symbol>, u: Symbol)
    requires Prepared(syms) && u in syms && UnderRoot(r, syms, u)
    ensures HasContainer(u, Seen(r, syms, syms)) <==> HasContainer(u, syms)
    ensures Within(RegionOf(u), r)
  {
    RootsSpec(r, syms, syms);
    var x :| x in Roots(r, syms, syms) && (x == u || Within(RegionOf(u), RegionOf(x)));
    if HasContainer(u, syms) {
      if RegionOf(x) == RegionOf(u) {
        var p :| p in syms && p != u && StrictlyContains(p, u);
        assert StrictlyContains(p, x);
      }
      assert UnderRoot(r, syms, x) && StrictlyContains(x, u);
    }
  }

  lemma {:induction false} SeenRoots(r: Region, syms: seq<Symbol>, rest: seq<Symbol>)
    requires Prepared(syms) && forall s :: s in rest ==> s in syms
    ensures Roots(r, Seen(r, syms, syms), Seen(r, syms, rest)) == Roots(r, syms, rest)
  {
    if rest != [] {
      var u := rest[0];
      assert u in rest && forall s :: s in rest[1..] ==> s in rest;
      SeenRoots(r, syms, rest[1..]);
      if UnderRoot(r, syms, u) {
        SeenContainer(r, syms, u);
        assert Seen(r, syms, rest)[1..] == Seen(r, syms, rest[1..]);
      } else {
        RootsSpec(r, syms, syms);
        assert u !in Roots(r, syms, syms);
        assert Seen(r, syms, rest) == Seen(r, syms, rest[1..]);
      }
    }
  }

  lemma {:induction false} SeenChildren(r: Region, syms: seq<Symbol>, x: Symbol, rest: seq<Symbol>)
    requires x in Roots(r, syms, syms)
    ensures Children(x, Seen(r, syms, rest)) == Children(x, rest)
  {
    if rest != [] {
      SeenChildren(r, syms, x, rest[1..]);
      if UnderRoot(r, syms, rest[0]) {
        assert Seen(r, syms, rest)[1..] == Seen(r, syms, rest[1..]);
      } else {
        assert Seen(r, syms, rest) == Seen(r, syms, rest[1..]);
      }
    }
  }

  lemma {:induction false} SeenBlocks(c: Config, r: Region, syms: seq<Symbol>, blocks: seq<Block>, buf: Option<Region>)
    requires FromSymbols(blocks, Roots(r, syms, syms))
    ensures FromSymbols(blocks, syms) && FromSymbols(blocks, Seen(r, syms, syms))
    ensures PackBlocks(c, blocks, Seen(r, syms, syms), buf) == PackBlocks(c, blocks, syms, buf)
    decreases |blocks|
  {
    forall b | b in blocks && b.sym.Some? ensures b.sym.value in syms && b.sym.value in Seen(r, syms, syms) {
      assert UnderRoot(r, syms, b.sym.value);
    }
    if blocks != [] {
      var b := blocks[0];
      FromHead(blocks, Roots(r, syms, syms));
      if b.sym.Some? {
        SeenChildren(r, syms, b.sym.value, syms);
      }
      SeenBlocks(c, r, syms, blocks[1..], None);
      SeenBlocks(c, r, syms, blocks[1..], Some(b.region));
      SeenBlocks(c, r, syms, blocks[1..], Some(Merged(buf, b.region)));
    }
  }

  /** The rest of the symbols make no difference. */
  lemma PackSeen(c: Config, r: Region, syms: seq<Symbol>)
    requires Prepared(syms)
    ensures Pack(c, r, Seen(r, syms, syms)) == Pack(c, r, syms)
    ensures Prepared(Seen(r, syms, syms)) && AllWithin(Seen(r, syms, syms), r)
  {
    var roots := Roots(r, syms, syms);
    SeenRoots(r, syms, syms);
    SeenPrepared(r, syms, syms);
    BlocksFromSymbols(r.start, roots, r.end, roots);
    SeenBlocks(c, r, syms, Blocks(r.start, roots, r.end), None);
    forall s | s in Seen(r, syms, syms) ensures Within(RegionOf(s), r) {
      SeenContainer(r, syms, s);
    }
  }

  /** Inside the region, every symbol is seen. */
  lemma {:induction false} AllSeen(r: Region, syms: seq<Symbol>, rest: seq<Symbol>)
    requires Prepared(syms) && AllWithin(syms, r) && forall s :: s in rest ==> s in syms
    ensures Seen(r, syms, rest) == rest
  {
    if rest != [] {
      assert rest[0] in rest && forall s :: s in rest[1..] ==> s in rest;
      AllSeen(r, syms, rest[1..]);
      var x := RootAbove(r, syms, rest[0]);
      assert UnderRoot(r, syms, rest[0]);
    }
  }

  // ----- exactly once -----

  /** Each line of the file is in exactly one piece. */
  ghost predicate ExactlyOnce(c: Config, syms: seq<Symbol>, n: int) {
    forall line :: 1 <= line <= n ==> Holders(Pack(c, Region(1, n), syms), line) == 1
  }

  lemma {:induction false} LineOf(k: nat) returns (line: string)
    ensures LineSize(line) == k
  {
    line := "";
    if k > 0 {
      var shorter := LineOf(k - 1);
      line := shorter + ['x'];
      assert line[..|line| - 1] == shorter;
    }
  }

  lemma HeavyText(n: nat, maxNonWs: int) returns (lines: seq<string>)
    ensures |lines| == n && forall i :: 0 <= i < n ==> LineSize(lines[i]) > maxNonWs
  {
    var line := LineOf(if maxNonWs < 0 then 0 else maxNonWs + 1);
    lines := seq(n, i => line);
  }

  lemma LaminarOnce(c: Config, syms: seq<Symbol>, n: nat)
    requires Prepared(syms) && Laminar(syms)
    ensures ExactlyOnce(c, syms, n)
  {
    hide Pack, Holders;
    forall line | 1 <= line <= n ensures Holders(Pack(c, Region(1, n), syms), line) == 1 {
      PackTiles(c, Region(1, n), syms);
      TilesHoldOnce(Pack(c, Region(1, n), syms), 1, n, line);
    }
  }

  lemma ClashBreaksOnce(syms: seq<Symbol>, n: nat, maxNonWs: int, maxLines: int) returns (lines: seq<string>)
    requires Prepared(syms) && AllWithin(syms, Region(1, n)) && !Laminar(syms)
    ensures |lines| == n && !ExactlyOnce(Config(lines, maxNonWs, maxLines), syms, n)
  {
    hide Pack, Holders;
    LaminarMeansNoClash(syms);
    var s, t :| s in syms && t in syms && Clash(s, t);
    lines := HeavyText(n, maxNonWs);
    var line := ClashHeldTwice(Config(lines, maxNonWs, maxLines), Region(1, n), syms, s, t);
  }

  ghost predicate OnceOnAll(syms: seq<Symbol>, n: nat, maxNonWs: int, maxLines: int) {
    forall lines {:trigger Config(lines, maxNonWs, maxLines)} ::
      |lines| == n ==> ExactlyOnce(Config(lines, maxNonWs, maxLines), syms, n)
  }

  /** Whatever the budget and the ceiling, each line of every text of n lines is in
      exactly one chunk iff the ranges of the symbols that the packing sees are pairwise
      disjoint or strictly nested. When all symbols end inside the file, it sees all. */
  lemma ExactlyOnceIffLaminar(syms: seq<Symbol>, n: nat, maxNonWs: int, maxLines: int)
    requires Prepared(syms)
    ensures OnceOnAll(syms, n, maxNonWs, maxLines) <==> Laminar(Seen(Region(1, n), syms, syms))
    ensures AllWithin(syms, Region(1, n)) ==> (OnceOnAll(syms, n, maxNonWs, maxLines) <==> Laminar(syms))
  {
    hide Pack, Holders, Laminar, Seen;
    var r := Region(1, n);
    var seen := Seen(r, syms, syms);
    PackSeen(Config([], 0, 0), r, syms);
    if Laminar(seen) {
      forall lines | |lines| == n ensures ExactlyOnce(Config(lines, maxNonWs, maxLines), syms, n) {
        LaminarOnce(Config(lines, maxNonWs, maxLines), seen, n);
        PackSeen(Config(lines, maxNonWs, maxLines), r, syms);
      }
    } else {
      var lines := ClashBreaksOnce(seen, n, maxNonWs, maxLines);
      PackSeen(Config(lines, maxNonWs, maxLines), r, syms);
      assert !ExactlyOnce(Config(lines, maxNonWs, maxLines), syms, n);
    }
    if AllWithin(syms, r) {
      AllSeen(r, syms, syms);
    }
  }

  // ----- pieces and symbols -----

  /** The piece lies beside the symbol, inside it, or around it. */
  ghost predicate Clean(q: Region, t: Region) {
    Disjoint(q, t) || Within(q, t) || Within(t, q)
  }

  ghost predicate AllClean(pieces: seq<Piece>, t: Region) {
    forall q :: q in pieces ==> Clean(q.region, t)
  }

  /** A block lies beside t, or is the block of t or of a symbol around it. */
  ghost predicate Clear(b: Block, t: Symbol) {
    || Disjoint(b.region, RegionOf(t))
    || (b.sym.Some? && (b.sym.value == t || StrictlyContains(b.sym.value, t)) && b.region == RegionOf(b.sym.value))
  }

  ghost predicate BufClear(buf: Option<Region>, t: Symbol) {
    buf.Some? ==> Disjoint(buf.value, RegionOf(t)) || Within(RegionOf(t), buf.value)
  }

  lemma {:induction false} TileApart(blocks: seq<Block>, a: int, e: int, i: nat, j: nat)
    requires BlocksTile(blocks, a, e) && i < j < |blocks|
    ensures blocks[i].region.end < blocks[j].region.start && a <= blocks[i].region.start
    decreases |blocks|
  {
    if i > 0 {
      TileApart(blocks[1..], blocks[0].region.end + 1, e, i - 1, j - 1);
    } else if j > 1 {
      TileApart(blocks[1..], blocks[0].region.end + 1, e, 0, j - 1);
    }
  }

  /** In a tiling by blocks, only the block of the root above t meets t. */
  lemma BlocksClear(blocks: seq<Block>, a: int, e: int, x: Symbol, t: Symbol)
    requires BlocksTile(blocks, a, e) && Block(RegionOf(x), Some(x)) in blocks
    requires x == t || StrictlyContains(x, t)
    ensures forall b :: b in blocks ==> Clear(b, t)
  {
    var k :| 0 <= k < |blocks| && blocks[k] == Block(RegionOf(x), Some(x));
    forall b | b in blocks ensures Clear(b, t) {
      var i :| 0 <= i < |blocks| && blocks[i] == b;
      if i < k {
        TileApart(blocks, a, e, i, k);
      } else if k < i {
        TileApart(blocks, a, e, k, i);
      }
    }
  }

  lemma AllCleanConcat(a: seq<Piece>, b: seq<Piece>, t: Region)
    requires AllClean(a, t) && AllClean(b, t)
    ensures AllClean(a + b, t)
  {
  }

  lemma {:induction false} PackClean(c: Config, r: Region, syms: seq<Symbol>, t: Symbol)
    requires Prepared(syms) && Laminar(syms) && AllWithin(syms, r) && t in syms
    ensures AllClean(Pack(c, r, syms), RegionOf(t))
    decreases |syms|, 2, 0
  {
    var roots := Roots(r, syms, syms);
    var x := RootAbove(r, syms, t);
    RootsAscend(r, syms);
    RootsApart(r, syms);
    BlocksFromSymbols(r.start, roots, r.end, syms);
    assert r.start <= r.end + 1 by {
      assert WellFormed(t) && Within(RegionOf(t), r);
    }
    ApartBlocksTile(r.start, roots, r.end);
    RootHasBlock(r.start, roots, r.end, x);
    var blocks := Blocks(r.start, roots, r.end);
    BlocksClear(blocks, r.start, r.end, x, t);
    PackBlocksClean(c, blocks, syms, None, r.start, r.end, t);
  }

  lemma {:induction false} PackOversizedClean(c: Config, b: Block, syms: seq<Symbol>, t: Symbol)
    requires Prepared(syms) && Laminar(syms) && t in syms && Clear(b, t)
    requires b.sym.Some? ==> b.sym.value in syms
    ensures AllClean(PackOversized(c, b, syms), RegionOf(t))
    decreases |syms|, 0, 0
  {
    PackOversizedGood(c, b, syms, b.region);
    if !Disjoint(b.region, RegionOf(t)) && b.sym.value != t {
      var x := b.sym.value;
      ChildrenPrepared(x, syms);
      ChildrenLaminar(x, syms);
      ChildOf(x, syms, t);
      ChildrenWithin(x, syms);
      PackClean(c, b.region, Children(x, syms), t);
    }
  }

  lemma {:induction false} PackBlocksClean(c: Config, blocks: seq<Block>, syms: seq<Symbol>, buf: Option<Region>,
                                           a: int, e: int, t: Symbol)
    requires Prepared(syms) && Laminar(syms) && t in syms && FromSymbols(blocks, syms)
    requires BlocksTile(blocks, a, e) && BufTouches(buf, a) && BufClear(buf, t)
    requires forall b :: b in blocks ==> Clear(b, t)
    ensures AllClean(PackBlocks(c, blocks, syms, buf), RegionOf(t))
    decreases |syms|, 1, |blocks|
  {
    hide Prepared, Laminar;
    assert AllClean(Flush(buf), RegionOf(t));
    if blocks != [] {
      var b, rest := blocks[0], blocks[1..];
      assert b in blocks && forall b' :: b' in rest ==> b' in blocks;
      FromHead(blocks, syms);
      if Oversized(c, b.region) {
        PackOversizedClean(c, b, syms, t);
        PackBlocksClean(c, rest, syms, None, b.region.end + 1, e, t);
        AllCleanConcat(Flush(buf), PackOversized(c, b, syms), RegionOf(t));
        AllCleanConcat(Flush(buf) + PackOversized(c, b, syms), PackBlocks(c, rest, syms, None), RegionOf(t));
      } else if buf.Some? && NonWsSize(c.lines, Region(buf.value.start, b.region.end)) > c.maxNonWs {
        PackBlocksClean(c, rest, syms, Some(b.region), b.region.end + 1, e, t);
        AllCleanConcat(Flush(buf), PackBlocks(c, rest, syms, Some(b.region)), RegionOf(t));
      } else {
        PackBlocksClean(c, rest, syms, Some(Merged(buf, b.region)), b.region.end + 1, e, t);
      }
    }
  }
}
