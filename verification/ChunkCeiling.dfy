/** What the line ceiling of the chunker is worth (packages/code/src/indexer/cast-chunker.ts). */
module ChunkCeiling {
  import opened Common
  import opened CastChunker
  import opened ChunkTheorems

  ghost predicate Long(r: Region, limit: int) {
    r.end - r.start + 1 > limit
  }

  /** No piece has more lines than the ceiling. */
  ghost predicate UnderCeiling(c: Config, pieces: seq<Piece>) {
    forall q :: q in pieces ==> !Long(q.region, c.maxLines)
  }

  ghost predicate HasLong(c: Config, pieces: seq<Piece>) {
    exists q :: q in pieces && Long(q.region, c.maxLines)
  }

  lemma LongConcat(c: Config, a: seq<Piece>, b: seq<Piece>)
    ensures HasLong(c, a + b) <==> HasLong(c, a) || HasLong(c, b)
  {
    if HasLong(c, a) {
      var q :| q in a && Long(q.region, c.maxLines);
      assert q in a + b;
    }
    if HasLong(c, b) {
      var q :| q in b && Long(q.region, c.maxLines);
      assert q in a + b;
    }
  }

  // ----- blank text: nothing but the ceiling separates blocks -----

  ghost predicate Blank(lines: seq<string>) {
    forall i :: 0 <= i < |lines| ==> |lines[i]| == 0
  }

  /** A text of blank lines with no size budget to spare. */
  function BlankConfig(n: nat, limit: int): Config {
    Config(seq(n, i => ""), 0, limit)
  }

  lemma {:induction false} BlankTotal(lines: seq<string>)
    requires Blank(lines)
    ensures Total(lines) == 0
  {
    if lines != [] {
      BlankTotal(lines[..|lines| - 1]);
    }
  }

  lemma BlankSize(n: nat, limit: int, r: Region)
    ensures NonWsSize(BlankConfig(n, limit).lines, r) == 0
  {
    BlankTotal(Slice(BlankConfig(n, limit).lines, r));
  }

  lemma LongFlush(c: Config, buf: Region)
    requires buf.start <= buf.end && Long(buf, c.maxLines)
    ensures HasLong(c, Flush(Some(buf)))
  {
    var q := Flush(Some(buf))[0];
    assert q in Flush(Some(buf)) && Long(q.region, c.maxLines);
  }

  /** Over blank text, a buffer that is over the ceiling leaves in a piece over the ceiling. */
  lemma {:induction false} LongBufferStays(n: nat, limit: int, blocks: seq<Block>, syms: seq<Symbol>, buf: Region,
                                           r: Region)
    requires FromSymbols(blocks, syms) && Ordered(blocks, r) && BufBefore(Some(buf), blocks)
    requires buf.start <= buf.end && Long(buf, limit)
    ensures HasLong(BlankConfig(n, limit), PackBlocks(BlankConfig(n, limit), blocks, syms, Some(buf)))
    decreases |blocks|
  {
    var c := BlankConfig(n, limit);
    LongFlush(c, buf);
    if blocks != [] {
      hide Ordered, BufBefore, Flush;
      var b, rest := blocks[0], blocks[1..];
      FromHead(blocks, syms);
      HeadOk(blocks, r, Some(buf));
      BlankSize(n, limit, b.region);
      BlankSize(n, limit, Region(buf.start, b.region.end));
      if Oversized(c, b.region) {
        LongConcat(c, Flush(Some(buf)), PackOversized(c, b, syms));
        LongConcat(c, Flush(Some(buf)) + PackOversized(c, b, syms), PackBlocks(c, rest, syms, None));
      } else {
        LongBufferStays(n, limit, rest, syms, Merged(Some(buf), b.region), r);
      }
    }
  }

  /** The buffer over blank text reaches at least as far back. */
  ghost predicate Wider(buf: Option<Region>, wide: Option<Region>) {
    && (buf.Some? ==> wide.Some? && wide.value.start <= buf.value.start <= buf.value.end == wide.value.end)
    && (wide.Some? ==> wide.value.start <= wide.value.end)
  }

  /** A line split stays under the ceiling. */
  lemma SplitUnderCeiling(c: Config, r: Region, kind: Kind)
    requires c.maxLines >= 1 && kind != SymbolChunk
    ensures !HasLong(c, HardSplit(c, r, kind))
  {
    HardSplitGood(c, r, kind);
    forall q | q in HardSplit(c, r, kind) ensures q.kind == kind {
      SplitKind(c, r, kind, q);
    }
    assert forall q :: q in HardSplit(c, r, kind) ==> InBudget(c, q);
  }

  lemma {:induction false} SplitKind(c: Config, r: Region, kind: Kind, q: Piece)
    requires q in HardSplit(c, r, kind)
    ensures q.kind == kind
    decreases r.end - r.start
  {
    var end := Extend(c, r.start, r.start, r.end);
    var head, tail := [Piece(Region(r.start, end), kind)], HardSplit(c, Region(end + 1, r.end), kind);
    if q in tail {
      SplitKind(c, Region(end + 1, r.end), kind, q);
    } else {
      assert q in head;
    }
  }

  /** A piece over the ceiling, on any text, means one on blank text. */
  lemma {:induction false} BlankIsLongest(c: Config, n: nat, r: Region, syms: seq<Symbol>)
    requires c.maxLines >= 1 && Prepared(syms)
    requires HasLong(c, Pack(c, r, syms))
    ensures HasLong(BlankConfig(n, c.maxLines), Pack(BlankConfig(n, c.maxLines), r, syms))
    decreases |syms|, 2, 0
  {
    var roots := Roots(r, syms, syms);
    if roots == [] {
      SplitUnderCeiling(c, r, GapChunk);
    } else {
      RootsAscend(r, syms);
      BlocksOrdered(r.start, roots, r);
      BlocksFromSymbols(r.start, roots, r.end, syms);
      var blocks := Blocks(r.start, roots, r.end);
      NoBuf(blocks);
      BlankBlocksLongest(c, n, blocks, syms, None, None, r);
    }
  }

  lemma {:induction false} BlankOversizedLongest(c: Config, n: nat, b: Block, syms: seq<Symbol>)
    requires c.maxLines >= 1 && Prepared(syms)
    requires b.sym.Some? ==> b.sym.value in syms
    requires HasLong(c, PackOversized(c, b, syms))
    ensures Long(b.region, c.maxLines)
    ensures HasLong(BlankConfig(n, c.maxLines), PackOversized(BlankConfig(n, c.maxLines), b, syms))
    decreases |syms|, 0, 0
  {
    PackOversizedGood(c, b, syms, b.region);
    if b.sym.Some? {
      var children := Children(b.sym.value, syms);
      ChildrenPrepared(b.sym.value, syms);
      if children != [] {
        BlankIsLongest(c, n, b.region, children);
      } else {
        SplitUnderCeiling(c, b.region, SplitChunk);
      }
    } else {
      SplitUnderCeiling(c, b.region, GapChunk);
    }
  }

  /** Where the pieces of a merge come from. */
  lemma LongWhere(c: Config, blocks: seq<Block>, syms: seq<Symbol>, buf: Option<Region>)
    requires FromSymbols(blocks, syms) && blocks != []
    ensures FromSymbols(blocks[1..], syms) && (blocks[0].sym.Some? ==> blocks[0].sym.value in syms)
    ensures var b, rest, all := blocks[0], blocks[1..], PackBlocks(c, blocks, syms, buf);
            if Oversized(c, b.region) then
              HasLong(c, all) <==> HasLong(c, Flush(buf)) || HasLong(c, PackOversized(c, b, syms)) ||
                                   HasLong(c, PackBlocks(c, rest, syms, None))
            else if buf.Some? && NonWsSize(c.lines, Region(buf.value.start, b.region.end)) > c.maxNonWs then
              HasLong(c, all) <==> HasLong(c, Flush(buf)) || HasLong(c, PackBlocks(c, rest, syms, Some(b.region)))
            else all == PackBlocks(c, rest, syms, Some(Merged(buf, b.region)))
  {
    hide HasLong, Flush;
    FromHead(blocks, syms);
    var b, rest := blocks[0], blocks[1..];
    var split := PackOversized(c, b, syms);
    LongConcat(c, Flush(buf), split);
    LongConcat(c, Flush(buf) + split, PackBlocks(c, rest, syms, None));
    LongConcat(c, Flush(buf), PackBlocks(c, rest, syms, Some(b.region)));
  }

  /** Over blank text only a long block stops the merge. */
  lemma BlankWhere(n: nat, limit: int, blocks: seq<Block>, syms: seq<Symbol>, buf: Option<Region>)
    requires FromSymbols(blocks, syms) && blocks != []
    ensures FromSymbols(blocks[1..], syms) && (blocks[0].sym.Some? ==> blocks[0].sym.value in syms)
    ensures var c, b, rest := BlankConfig(n, limit), blocks[0], blocks[1..];
            var all := PackBlocks(c, blocks, syms, buf);
            if Long(b.region, limit) then
              HasLong(c, all) <==> HasLong(c, Flush(buf)) || HasLong(c, PackOversized(c, b, syms)) ||
                                   HasLong(c, PackBlocks(c, rest, syms, None))
            else all == PackBlocks(c, rest, syms, Some(Merged(buf, b.region)))
  {
    hide HasLong, Flush, PackBlocks, NonWsSize;
    LongWhere(BlankConfig(n, limit), blocks, syms, buf);
    BlankSize(n, limit, blocks[0].region);
    if buf.Some? {
      BlankSize(n, limit, Region(buf.value.start, blocks[0].region.end));
    }
  }

  lemma WiderMerge(buf: Option<Region>, wide: Option<Region>, blocks: seq<Block>, r: Region)
    requires Wider(buf, wide) && Ordered(blocks, r) && blocks != [] && BufBefore(buf, blocks) && BufBefore(wide, blocks)
    ensures Ordered(blocks[1..], r) && BufBefore(None, blocks[1..])
    ensures BufBefore(Some(blocks[0].region), blocks[1..])
    ensures BufBefore(Some(Merged(buf, blocks[0].region)), blocks[1..])
    ensures BufBefore(Some(Merged(wide, blocks[0].region)), blocks[1..])
    ensures var next := Some(Merged(wide, blocks[0].region));
            Wider(None, next) && Wider(Some(blocks[0].region), next) && Wider(Some(Merged(buf, blocks[0].region)), next)
  {
    HeadOk(blocks, r, buf);
    HeadOk(blocks, r, wide);
    NoBuf(blocks[1..]);
  }

  lemma {:induction false} BlankBlocksLongest(c: Config, n: nat, blocks: seq<Block>, syms: seq<Symbol>,
                                              buf: Option<Region>, wide: Option<Region>, r: Region)
    requires c.maxLines >= 1 && Prepared(syms) && FromSymbols(blocks, syms)
    requires Ordered(blocks, r) && Wider(buf, wide) && BufBefore(buf, blocks) && BufBefore(wide, blocks)
    requires HasLong(c, PackBlocks(c, blocks, syms, buf))
    ensures HasLong(BlankConfig(n, c.maxLines), PackBlocks(BlankConfig(n, c.maxLines), blocks, syms, wide))
    decreases |syms|, 1, |blocks|
  {
    if HasLong(c, Flush(buf)) {
      LongBufferStays(n, c.maxLines, blocks, syms, wide.value, r);
    } else {
      assert blocks != [];
      hide Ordered, BufBefore, Prepared, HasLong, Flush, PackBlocks, BlankConfig, FromSymbols, NonWsSize, Wider;
      var b, rest, next := blocks[0], blocks[1..], Some(Merged(wide, blocks[0].region));
      LongWhere(c, blocks, syms, buf);
      BlankWhere(n, c.maxLines, blocks, syms, wide);
      WiderMerge(buf, wide, blocks, r);
      if Oversized(c, b.region) {
        if HasLong(c, PackOversized(c, b, syms)) {
          BlankOversizedLongest(c, n, b, syms);
        } else {
          NothingWider();
          BlankBlocksLongest(c, n, rest, syms, None, if Long(b.region, c.maxLines) then None else next, r);
        }
      } else if buf.Some? && NonWsSize(c.lines, Region(buf.value.start, b.region.end)) > c.maxNonWs {
        BlankBlocksLongest(c, n, rest, syms, Some(b.region), next, r);
      } else {
        BlankBlocksLongest(c, n, rest, syms, Some(Merged(buf, b.region)), next, r);
      }
    }
  }

  lemma NothingWider()
    ensures Wider(None, None)
  {
  }

  /** With no ceiling worth the name, every piece of a nonempty text is over it. */
  lemma NoRoom(c: Config, syms: seq<Symbol>, n: nat)
    requires Prepared(syms) && c.maxLines <= 0 && n >= 1
    ensures HasLong(c, Pack(c, Region(1, n), syms))
  {
    PackGood(c, Region(1, n), syms);
    assert Holds(Region(1, n), 1);
    assert Covered(Pack(c, Region(1, n), syms), 1);
    var q :| q in Pack(c, Region(1, n), syms) && Holds(q.region, 1);
    assert Long(q.region, c.maxLines);
  }

  lemma NoLines(c: Config, syms: seq<Symbol>)
    requires Prepared(syms)
    ensures !HasLong(c, Pack(c, Region(1, 0), syms))
  {
    PackGood(c, Region(1, 0), syms);
  }

  ghost predicate CeilingOnAll(syms: seq<Symbol>, n: nat, limit: int) {
    forall lines, maxNonWs {:trigger Config(lines, maxNonWs, limit)} ::
      |lines| == n ==> UnderCeiling(Config(lines, maxNonWs, limit),
                                    Pack(Config(lines, maxNonWs, limit), Region(1, n), syms))
  }

  /** The ceiling is kept on every text of n lines and for every budget iff it is kept on
      n blank lines, where nothing but the ceiling stops a merge. */
  lemma LineCeilingExact(syms: seq<Symbol>, n: nat, limit: int)
    requires Prepared(syms)
    ensures CeilingOnAll(syms, n, limit) <==>
            UnderCeiling(BlankConfig(n, limit), Pack(BlankConfig(n, limit), Region(1, n), syms))
  {
    hide Pack, Prepared;
    var c0 := BlankConfig(n, limit);
    if UnderCeiling(c0, Pack(c0, Region(1, n), syms)) {
      forall lines, maxNonWs | |lines| == n
        ensures UnderCeiling(Config(lines, maxNonWs, limit), Pack(Config(lines, maxNonWs, limit), Region(1, n), syms))
      {
        var c := Config(lines, maxNonWs, limit);
        if n == 0 {
          NoLines(c, syms);
        } else if limit <= 0 {
          NoRoom(c0, syms, n);
        } else if HasLong(c, Pack(c, Region(1, n), syms)) {
          BlankIsLongest(c, n, Region(1, n), syms);
        }
      }
    }
  }

  /** A one-line symbol followed by one of `limit` lines are merged into one chunk. */
  lemma MergePassesCeiling(n: nat, limit: int) returns (syms: seq<Symbol>)
    requires 1 <= limit < n
    ensures Prepared(syms) && AllWithin(syms, Region(1, n))
    ensures HasLong(BlankConfig(n, limit), Pack(BlankConfig(n, limit), Region(1, n), syms))
  {
    var r := Region(1, n);
    var s, t := Symbol("f", Function, 1, 1), Symbol("g", Function, 2, limit + 1);
    syms := [s, t];
    TwoRoots(r, s, t);
    TwoBlocks(n, s, t);
    BlocksFromSymbols(1, syms, n, syms);
    RootsAscend(r, syms);
    BlocksOrdered(1, syms, r);
    TwoMerge(n, limit, Blocks(1, syms, n), syms, r);
  }

  lemma TwoRoots(r: Region, s: Symbol, t: Symbol)
    requires Within(RegionOf(s), r) && Within(RegionOf(t), r)
    requires !StrictlyContains(s, t) && !StrictlyContains(t, s)
    ensures Roots(r, [s, t], [s, t]) == [s, t]
  {
    var syms := [s, t];
    assert syms[1..] == [t] && [t][1..] == [];
    assert Roots(r, syms, [t]) == [t] + Roots(r, syms, []);
    assert Roots(r, syms, syms) == [s] + Roots(r, syms, [t]);
  }

  /** Two adjacent symbols at the start of the file. */
  lemma TwoBlocks(n: nat, s: Symbol, t: Symbol)
    requires s.startLine == 1 && t.startLine == s.endLine + 1
    ensures Blocks(1, [s, t], n) ==
            [Block(RegionOf(s), Some(s)), Block(RegionOf(t), Some(t))] + Blocks(t.endLine + 1, [], n)
  {
    assert [s, t][1..] == [t] && [t][1..] == [];
  }

  lemma TwoMerge(n: nat, limit: int, blocks: seq<Block>, syms: seq<Symbol>, r: Region)
    requires FromSymbols(blocks, syms) && Ordered(blocks, r) && |blocks| >= 2 && limit >= 1
    requires blocks[0].region == Region(1, 1) && blocks[1].region == Region(2, limit + 1)
    ensures HasLong(BlankConfig(n, limit), PackBlocks(BlankConfig(n, limit), blocks, syms, None))
  {
    var c, both, tail := BlankConfig(n, limit), Region(1, limit + 1), blocks[1..];
    NoBuf(blocks);
    HeadOk(blocks, r, None);
    FromHead(blocks, syms);
    hide Ordered, BufBefore, BlankConfig, HasLong, FromSymbols;
    HeadOk(tail, r, Some(blocks[0].region));
    FromHead(tail, syms);
    BlankSize(n, limit, Region(1, 1));
    BlankSize(n, limit, Region(2, limit + 1));
    BlankSize(n, limit, both);
    BlankLimits(n, limit);
    LongBufferStays(n, limit, tail[1..], syms, both, r);
    assert PackBlocks(c, tail, syms, Some(Region(1, 1))) == PackBlocks(c, tail[1..], syms, Some(both));
  }

  lemma BlankLimits(n: nat, limit: int)
    ensures BlankConfig(n, limit).maxNonWs == 0 && BlankConfig(n, limit).maxLines == limit
  {
  }

  /** Over all symbol lists, the ceiling is kept iff the whole text is under it. */
  lemma CeilingForAllSymbols(n: nat, limit: int)
    requires n >= 1
    ensures (forall syms :: Prepared(syms) && AllWithin(syms, Region(1, n)) ==> CeilingOnAll(syms, n, limit)) <==>
            n <= limit
  {
    hide Pack, Prepared, AllWithin;
    var c0 := BlankConfig(n, limit);
    if n <= limit {
      forall syms | Prepared(syms) && AllWithin(syms, Region(1, n)) ensures CeilingOnAll(syms, n, limit) {
        PackGood(c0, Region(1, n), syms);
        LineCeilingExact(syms, n, limit);
      }
    } else if limit <= 0 {
      NoSymbols(n);
      NoRoom(c0, [], n);
      LineCeilingExact([], n, limit);
    } else {
      var syms := MergePassesCeiling(n, limit);
      LineCeilingExact(syms, n, limit);
    }
  }

  lemma NoSymbols(n: nat)
    ensures Prepared([]) && AllWithin([], Region(1, n))
  {
  }
}
