/** What a reader of the chunks can rely on: sizes in characters, symbols kept whole,
    nothing cut or flushed too early (packages/code/src/indexer/cast-chunker.ts). */
module ChunkLaws {
  import opened Common
  import opened CastChunker
  import opened ChunkTheorems
  import opened Lines

  // ----- characters -----

  /** Number of characters of the text that are not white space. */
  ghost function Ink(text: string): nat {
    |set i | 0 <= i < |text| && !IsSpace(text[i])|
  }

  lemma InkAppend(text: string, ch: char)
    ensures Ink(text + [ch]) == Ink(text) + (if IsSpace(ch) then 0 else 1)
  {
    var before := set i | 0 <= i < |text| && !IsSpace(text[i]);
    var after := set i | 0 <= i < |text + [ch]| && !IsSpace((text + [ch])[i]);
    assert after == before + (if IsSpace(ch) then {} else {|text|});
  }

  lemma {:induction false} InkConcat(a: string, b: string)
    ensures Ink(a + b) == Ink(a) + Ink(b)
    decreases |b|
  {
    if b == "" {
      assert a + b == a;
    } else {
      InkConcat(a, Front(b));
      InkAppend(a + Front(b), Last(b));
      InkAppend(Front(b), Last(b));
      assert a + b == a + Front(b) + [Last(b)] && b == Front(b) + [Last(b)];
    }
  }

  lemma {:induction false} LineInk(line: string)
    ensures LineSize(line) == Ink(line)
  {
    if line != "" {
      LineInk(Front(line));
      InkAppend(Front(line), Last(line));
      assert line == Front(line) + [Last(line)];
    }
  }

  /** The size of some lines is the number of inked characters of their joined text. */
  lemma {:induction false} TotalInk(lines: seq<string>)
    ensures Total(lines) == Ink(Join(lines))
  {
    if lines != [] {
      var most, line := Front(lines), Last(lines);
      TotalInk(most);
      LineInk(line);
      if most == [] {
        assert lines == [line];
      } else {
        assert lines == most + [line];
        JoinConcat(most, [line]);
        InkConcat(Join(most) + "\n", line);
        InkConcat(Join(most), "\n");
        InkAppend("", '\n');
        assert "" + ['\n'] == "\n";
      }
    }
  }

  /** The text of lines a to b of a file. */
  ghost function TextOf(lines: seq<string>, r: Region): string
    requires 1 <= r.start <= r.end <= |lines|
  {
    Join(lines[r.start - 1..r.end])
  }

  lemma SizeIsInk(lines: seq<string>, r: Region)
    requires 1 <= r.start <= r.end <= |lines|
    ensures NonWsSize(lines, r) == Ink(TextOf(lines, r))
    ensures Slice(lines, r) == lines[r.start - 1..r.end]
  {
    TotalInk(Slice(lines, r));
  }

  lemma SizeGrows(lines: seq<string>, r: Region, wide: Region)
    requires Within(r, wide)
    ensures NonWsSize(lines, r) <= NonWsSize(lines, wide)
  {
    var (i, j) := Bounds(lines, r);
    var (a, b) := Bounds(lines, wide);
    if i < j {
      SplitSlice(lines, a, i, b);
      SplitSlice(lines, i, j, b);
      TotalConcat(lines[a..i], lines[i..b]);
      TotalConcat(lines[i..j], lines[j..b]);
    }
  }

  /** The part of a file that a region covers. */
  ghost function Bounds(lines: seq<string>, r: Region): (b: (nat, nat))
    ensures b.0 <= b.1 <= |lines| && Slice(lines, r) == lines[b.0..b.1]
    ensures b.0 == (if r.start < 1 then 0 else if r.start - 1 > |lines| then |lines| else r.start - 1)
    ensures b.1 == (if r.end < b.0 then b.0 else if r.end > |lines| then |lines| else r.end)
  {
    var lo := if r.start < 1 then 0 else if r.start - 1 > |lines| then |lines| else r.start - 1;
    (lo, if r.end < lo then lo else if r.end > |lines| then |lines| else r.end)
  }

  lemma {:induction false} TotalConcat(a: seq<string>, b: seq<string>)
    ensures Total(a + b) == Total(a) + Total(b)
    decreases |b|
  {
    if b == [] {
      assert a + b == a;
    } else {
      TotalConcat(a, Front(b));
      assert (a + b)[..|a + b| - 1] == a + Front(b);
    }
  }

  // ----- a symbol that fits stays whole -----

  ghost predicate InOnePiece(pieces: seq<Piece>, r: Region) {
    exists q :: q in pieces && Within(r, q.region)
  }

  lemma OnePieceConcat(a: seq<Piece>, b: seq<Piece>, r: Region)
    ensures InOnePiece(a + b, r) <==> InOnePiece(a, r) || InOnePiece(b, r)
  {
    if InOnePiece(a, r) {
      var q :| q in a && Within(r, q.region);
      assert q in a + b;
    }
    if InOnePiece(b, r) {
      var q :| q in b && Within(r, q.region);
      assert q in a + b;
    }
  }

  /** What is buffered leaves in one piece. */
  lemma {:induction false} BufferKept(c: Config, blocks: seq<Block>, syms: seq<Symbol>, buf: Region, r: Region)
    requires FromSymbols(blocks, syms) && Ordered(blocks, r) && BufBefore(Some(buf), blocks)
    requires buf.start <= buf.end
    ensures InOnePiece(PackBlocks(c, blocks, syms, Some(buf)), buf)
    decreases |blocks|
  {
    var q := Flush(Some(buf))[0];
    assert q in Flush(Some(buf)) && InOnePiece(Flush(Some(buf)), buf);
    if blocks != [] {
      hide Ordered, BufBefore, Flush, Oversized, NonWsSize;
      var b, rest := blocks[0], blocks[1..];
      FromHead(blocks, syms);
      HeadOk(blocks, r, Some(buf));
      OnePieceConcat(Flush(Some(buf)), PackOversized(c, b, syms), buf);
      OnePieceConcat(Flush(Some(buf)) + PackOversized(c, b, syms), PackBlocks(c, rest, syms, None), buf);
      OnePieceConcat(Flush(Some(buf)), PackBlocks(c, rest, syms, Some(b.region)), buf);
      var merged := Merged(Some(buf), b.region);
      BufferKept(c, rest, syms, merged, r);
      var p :| p in PackBlocks(c, rest, syms, Some(merged)) && Within(merged, p.region);
      assert Within(buf, p.region);
    }
  }

  /** A block that fits leaves in one piece, and of one that does not all pieces are there. */
  lemma {:induction false} BlockKept(c: Config, blocks: seq<Block>, syms: seq<Symbol>, buf: Option<Region>, b: Block,
                                     r: Region)
    requires FromSymbols(blocks, syms) && Ordered(blocks, r) && BufBefore(buf, blocks) && b in blocks
    requires buf.Some? ==> buf.value.start <= buf.value.end
    ensures b.sym.Some? ==> b.sym.value in syms
    ensures Oversized(c, b.region) ==>
              forall q :: q in PackOversized(c, b, syms) ==> q in PackBlocks(c, blocks, syms, buf)
    ensures !Oversized(c, b.region) ==> InOnePiece(PackBlocks(c, blocks, syms, buf), b.region)
    decreases |blocks|
  {
    var d, rest := blocks[0], blocks[1..];
    FromHead(blocks, syms);
    HeadOk(blocks, r, buf);
    InSplit(blocks, b);
    var flushed, split, next := Flush(buf), PackOversized(c, d, syms), PackBlocks(c, rest, syms, None);
    hide Ordered, BufBefore, Flush, NonWsSize, Within;
    OnePieceConcat(flushed, split, b.region);
    OnePieceConcat(flushed + split, next, b.region);
    OnePieceConcat(flushed, PackBlocks(c, rest, syms, Some(d.region)), b.region);
    if Oversized(c, d.region) {
      if b in rest {
        NoBuf(rest);
        BlockKept(c, rest, syms, None, b, r);
      }
    } else {
      BufferHoldsBlock(c, rest, syms, buf, d.region, r);
      if b in rest {
        BlockKept(c, rest, syms, Some(d.region), b, r);
        BlockKept(c, rest, syms, Some(Merged(buf, d.region)), b, r);
      }
    }
  }

  lemma BufferHoldsBlock(c: Config, rest: seq<Block>, syms: seq<Symbol>, buf: Option<Region>, d: Region, r: Region)
    requires FromSymbols(rest, syms) && Ordered(rest, r) && d.start <= d.end
    requires BufBefore(Some(d), rest) && BufBefore(Some(Merged(buf, d)), rest)
    requires Merged(buf, d).start <= d.start
    ensures InOnePiece(PackBlocks(c, rest, syms, Some(d)), d)
    ensures InOnePiece(PackBlocks(c, rest, syms, Some(Merged(buf, d))), d)
  {
    BufferKept(c, rest, syms, d, r);
    BufferKept(c, rest, syms, Merged(buf, d), r);
    var p :| p in PackBlocks(c, rest, syms, Some(Merged(buf, d))) && Within(Merged(buf, d), p.region);
    assert Within(d, p.region);
  }

  /** Whatever the other symbols, one that fits the budget and the ceiling is in one chunk. */
  lemma {:induction false} FittingSymbolWhole(c: Config, r: Region, syms: seq<Symbol>, t: Symbol)
    requires Prepared(syms) && t in syms && UnderRoot(r, syms, t) && !Oversized(c, RegionOf(t))
    ensures InOnePiece(Pack(c, r, syms), RegionOf(t))
    decreases |syms|
  {
    var x :| x in Roots(r, syms, syms) && (x == t || Within(RegionOf(t), RegionOf(x)));
    RootKept(c, r, syms, x);
    hide Pack, Roots, Prepared, Oversized;
    if Oversized(c, RegionOf(x)) {
      var children := Children(x, syms);
      ChildSeen(syms, x, t);
      FittingSymbolWhole(c, RegionOf(x), children, t);
      var q :| q in Pack(c, RegionOf(x), children) && Within(RegionOf(t), q.region);
      assert q in Pack(c, r, syms);
    } else {
      var q :| q in Pack(c, r, syms) && Within(RegionOf(x), q.region);
      assert Within(RegionOf(t), q.region);
    }
  }

  lemma ChildSeen(syms: seq<Symbol>, x: Symbol, t: Symbol)
    requires Prepared(syms) && x in syms && t in syms && x != t && Within(RegionOf(t), RegionOf(x))
    ensures var children := Children(x, syms);
            t in children && |children| < |syms| && Prepared(children) && UnderRoot(RegionOf(x), children, t)
  {
    var children := Children(x, syms);
    ChildrenSpec(x, syms);
    ChildrenPrepared(x, syms);
    ChildrenWithin(x, syms);
    var y := RootAbove(RegionOf(x), children, t);
  }

  /** A root that fits leaves in one piece; of one that does not, its own packing is part
      of the result. */
  lemma RootKept(c: Config, r: Region, syms: seq<Symbol>, x: Symbol)
    requires Prepared(syms) && x in Roots(r, syms, syms)
    ensures x in syms
    ensures !Oversized(c, RegionOf(x)) ==> InOnePiece(Pack(c, r, syms), RegionOf(x))
    ensures Oversized(c, RegionOf(x)) && Children(x, syms) != [] ==>
              forall q :: q in Pack(c, RegionOf(x), Children(x, syms)) ==> q in Pack(c, r, syms)
  {
    var roots := Roots(r, syms, syms);
    var blocks, b := Blocks(r.start, roots, r.end), Block(RegionOf(x), Some(x));
    RootsAscend(r, syms);
    BlocksOrdered(r.start, roots, r);
    BlocksFromSymbols(r.start, roots, r.end, syms);
    RootHasBlock(r.start, roots, r.end, x);
    hide Prepared, Ordered, Oversized, FromSymbols;
    NoBuf(blocks);
    BlockKept(c, blocks, syms, None, b, r);
  }

  // ----- nothing is cut or flushed too early -----

  /** A piece that stops before `end` could not have taken the next line too. */
  ghost predicate Full(c: Config, q: Region, end: int) {
    q.end < end ==>
      q.end - q.start + 1 >= c.maxLines || NonWsSize(c.lines, Region(q.start, q.end + 1)) > c.maxNonWs
  }

  lemma {:induction false} ExtendFull(c: Config, start: int, end: int, limit: int)
    requires start <= end <= limit
    ensures Full(c, Region(start, Extend(c, start, end, limit)), limit)
    decreases limit - end
  {
    if Extend(c, start, end, limit) != end {
      ExtendFull(c, start, end + 1, limit);
    }
  }

  lemma {:induction false} SplitFull(c: Config, r: Region, kind: Kind)
    ensures forall q :: q in HardSplit(c, r, kind) ==> Full(c, q.region, r.end) && q.kind == kind
    decreases r.end - r.start
  {
    if r.start <= r.end {
      ExtendFull(c, r.start, r.start, r.end);
      SplitFull(c, Region(Extend(c, r.start, r.start, r.end) + 1, r.end), kind);
    }
  }

  /** Two neighbouring pieces would exceed the budget together. */
  ghost predicate Crowded(c: Config, pieces: seq<Piece>) {
    forall i :: 0 < i < |pieces| ==>
      NonWsSize(c.lines, Region(pieces[i - 1].region.start, pieces[i].region.end)) > c.maxNonWs
  }

  /** Blocks that fit are merged as far as the budget allows. */
  lemma {:induction false} MergesFill(c: Config, blocks: seq<Block>, syms: seq<Symbol>, buf: Option<Region>, r: Region)
    requires FromSymbols(blocks, syms) && Ordered(blocks, r) && BufBefore(buf, blocks)
    requires buf.Some? ==> buf.value.start <= buf.value.end
    requires forall b :: b in blocks ==> !Oversized(c, b.region)
    ensures Crowded(c, PackBlocks(c, blocks, syms, buf))
    ensures PackBlocks(c, blocks, syms, buf) == [] <==> blocks == [] && buf.None?
    ensures buf.Some? ==> var q := PackBlocks(c, blocks, syms, buf)[0].region;
                          q.start == buf.value.start && q.end >= buf.value.end
    ensures buf.None? && blocks != [] ==>
              var q := PackBlocks(c, blocks, syms, buf)[0].region;
              q.start == blocks[0].region.start && q.end >= blocks[0].region.end
    decreases |blocks|
  {
    if blocks != [] {
      var b, rest := blocks[0], blocks[1..];
      assert b in blocks && forall d :: d in rest ==> d in blocks;
      FromHead(blocks, syms);
      HeadOk(blocks, r, buf);
      hide Ordered, BufBefore, Oversized, NonWsSize;
      if buf.Some? && NonWsSize(c.lines, Region(buf.value.start, b.region.end)) > c.maxNonWs {
        MergesFill(c, rest, syms, Some(b.region), r);
        var tail := PackBlocks(c, rest, syms, Some(b.region));
        SizeGrows(c.lines, Region(buf.value.start, b.region.end), Region(buf.value.start, tail[0].region.end));
        CrowdedCons(c, Piece(buf.value, SymbolChunk), tail);
        assert Flush(buf) == [Piece(buf.value, SymbolChunk)];
      } else {
        MergesFill(c, rest, syms, Some(Merged(buf, b.region)), r);
      }
    }
  }

  lemma CrowdedCons(c: Config, p: Piece, tail: seq<Piece>)
    requires Crowded(c, tail) && tail != []
    requires NonWsSize(c.lines, Region(p.region.start, tail[0].region.end)) > c.maxNonWs
    ensures Crowded(c, [p] + tail)
  {
  }

  // ----- what the kinds say -----

  ghost predicate IsLeaf(s: Symbol, syms: seq<Symbol>) {
    s in syms && forall u :: u in syms ==> !StrictlyContains(s, u)
  }

  /** A split piece is a part of a symbol with nothing inside it. */
  ghost predicate SplitOfLeaf(q: Piece, syms: seq<Symbol>) {
    q.kind == SplitChunk ==> exists s :: IsLeaf(s, syms) && Within(q.region, RegionOf(s))
  }

  lemma LeafUp(x: Symbol, syms: seq<Symbol>, q: Piece)
    requires Prepared(syms) && SplitOfLeaf(q, Children(x, syms))
    ensures SplitOfLeaf(q, syms)
  {
    ChildrenSpec(x, syms);
    if q.kind == SplitChunk {
      var s :| IsLeaf(s, Children(x, syms)) && Within(q.region, RegionOf(s));
      assert forall u :: u in syms && StrictlyContains(s, u) ==> u in Children(x, syms);
      assert IsLeaf(s, syms);
    }
  }

  lemma {:induction false} SplitsAreOfLeaves(c: Config, r: Region, syms: seq<Symbol>)
    requires Prepared(syms)
    ensures forall q :: q in Pack(c, r, syms) ==> SplitOfLeaf(q, syms)
    decreases |syms|, 2, 0
  {
    var roots := Roots(r, syms, syms);
    SplitFull(c, r, GapChunk);
    if roots != [] {
      RootsAscend(r, syms);
      BlocksOrdered(r.start, roots, r);
      BlocksFromSymbols(r.start, roots, r.end, syms);
      BlockSplitsAreOfLeaves(c, Blocks(r.start, roots, r.end), syms, None, r);
    }
  }

  lemma {:induction false} OversizedSplitsAreOfLeaves(c: Config, b: Block, syms: seq<Symbol>)
    requires Prepared(syms)
    requires b.sym.Some? ==> b.sym.value in syms && b.region == RegionOf(b.sym.value)
    ensures forall q :: q in PackOversized(c, b, syms) ==> SplitOfLeaf(q, syms)
    decreases |syms|, 0, 0
  {
    SplitFull(c, b.region, GapChunk);
    if b.sym.Some? {
      var x := b.sym.value;
      var children := Children(x, syms);
      ChildrenSpec(x, syms);
      ChildrenPrepared(x, syms);
      if children != [] {
        SplitsAreOfLeaves(c, b.region, children);
        forall q | q in Pack(c, b.region, children) ensures SplitOfLeaf(q, syms) {
          LeafUp(x, syms, q);
        }
      } else {
        HardSplitGood(c, b.region, SplitChunk);
        assert IsLeaf(x, syms);
      }
    }
  }

  lemma {:induction false} BlockSplitsAreOfLeaves(c: Config, blocks: seq<Block>, syms: seq<Symbol>,
                                                  buf: Option<Region>, r: Region)
    requires Prepared(syms) && FromSymbols(blocks, syms) && Ordered(blocks, r)
    ensures forall q :: q in PackBlocks(c, blocks, syms, buf) ==> SplitOfLeaf(q, syms)
    decreases |syms|, 1, |blocks|
  {
    if blocks != [] {
      var b := blocks[0];
      assert b in blocks;
      FromHead(blocks, syms);
      OrderedTail(blocks, r);
      hide Prepared, Ordered, IsLeaf;
      if Oversized(c, b.region) {
        OversizedSplitsAreOfLeaves(c, b, syms);
        BlockSplitsAreOfLeaves(c, blocks[1..], syms, None, r);
      } else {
        BlockSplitsAreOfLeaves(c, blocks[1..], syms, Some(b.region), r);
        BlockSplitsAreOfLeaves(c, blocks[1..], syms, Some(Merged(buf, b.region)), r);
      }
    }
  }

  /** A gap piece meets a symbol only when it lies in it beside something inside. */
  ghost predicate BesideSymbols(q: Region, syms: seq<Symbol>) {
    forall s :: s in syms ==>
      Disjoint(q, RegionOf(s)) || (Within(q, RegionOf(s)) && exists u :: u in syms && StrictlyContains(s, u))
  }

  ghost predicate GapsBeside(pieces: seq<Piece>, syms: seq<Symbol>) {
    forall q :: q in pieces && q.kind == GapChunk ==> BesideSymbols(q.region, syms)
  }

  /** A gap block, or the block of a root and so apart from what is not inside it. */
  ghost predicate BlockBeside(b: Block, syms: seq<Symbol>) {
    match b.sym
    case None => forall s :: s in syms ==> Disjoint(b.region, RegionOf(s))
    case Some(x) =>
      && x in syms && b.region == RegionOf(x)
      && forall s :: s in syms && s != x ==> Disjoint(RegionOf(x), RegionOf(s)) || StrictlyContains(x, s)
  }

  lemma GapUp(x: Symbol, syms: seq<Symbol>, q: Region)
    requires Prepared(syms) && BlockBeside(Block(RegionOf(x), Some(x)), syms) && Within(q, RegionOf(x))
    requires Children(x, syms) != [] && BesideSymbols(q, Children(x, syms))
    ensures BesideSymbols(q, syms)
  {
    ChildrenSpec(x, syms);
    var u := Children(x, syms)[0];
    assert u in Children(x, syms);
    forall s | s in syms
      ensures Disjoint(q, RegionOf(s)) || (Within(q, RegionOf(s)) && exists u :: u in syms && StrictlyContains(s, u))
    {
      if s == x {
        assert StrictlyContains(x, u);
      } else if s in Children(x, syms) {
        if !Disjoint(q, RegionOf(s)) {
          var v :| v in Children(x, syms) && StrictlyContains(s, v);
          assert v in syms;
        }
      }
    }
  }

  lemma {:induction false} PackGapsBeside(c: Config, r: Region, syms: seq<Symbol>)
    requires Prepared(syms) && Laminar(syms) && AllWithin(syms, r)
    ensures GapsBeside(Pack(c, r, syms), syms)
    decreases |syms|, 2, 0
  {
    var roots := Roots(r, syms, syms);
    if roots == [] {
      if syms != [] {
        var x := RootAbove(r, syms, syms[0]);
      }
    } else {
      RootsAscend(r, syms);
      BlocksOrdered(r.start, roots, r);
      BlocksFromSymbols(r.start, roots, r.end, syms);
      RootBlocksBeside(r, syms);
      BlockGapsBeside(c, Blocks(r.start, roots, r.end), syms, None, r);
    }
  }

  lemma {:induction false} OversizedGapsBeside(c: Config, b: Block, syms: seq<Symbol>)
    requires Prepared(syms) && Laminar(syms) && BlockBeside(b, syms)
    requires b.sym.Some? ==> b.sym.value in syms
    ensures GapsBeside(PackOversized(c, b, syms), syms)
    decreases |syms|, 0, 0
  {
    PackOversizedGood(c, b, syms, b.region);
    if b.sym.Some? {
      var x := b.sym.value;
      var children := Children(x, syms);
      ChildrenPrepared(x, syms);
      ChildrenLaminar(x, syms);
      ChildrenWithin(x, syms);
      SplitFull(c, b.region, SplitChunk);
      if children != [] {
        PackGapsBeside(c, b.region, children);
        forall q | q in Pack(c, b.region, children) && q.kind == GapChunk ensures BesideSymbols(q.region, syms) {
          GapUp(x, syms, q.region);
        }
      }
    }
  }

  lemma {:induction false} BlockGapsBeside(c: Config, blocks: seq<Block>, syms: seq<Symbol>, buf: Option<Region>,
                                           r: Region)
    requires Prepared(syms) && Laminar(syms) && FromSymbols(blocks, syms) && Ordered(blocks, r)
    requires forall b :: b in blocks ==> BlockBeside(b, syms)
    ensures GapsBeside(PackBlocks(c, blocks, syms, buf), syms)
    decreases |syms|, 1, |blocks|
  {
    if blocks != [] {
      var b := blocks[0];
      assert b in blocks && forall d :: d in blocks[1..] ==> d in blocks;
      FromHead(blocks, syms);
      OrderedTail(blocks, r);
      hide Prepared, Ordered, Laminar, BlockBeside, BesideSymbols;
      if Oversized(c, b.region) {
        OversizedGapsBeside(c, b, syms);
        BlockGapsBeside(c, blocks[1..], syms, None, r);
      } else {
        BlockGapsBeside(c, blocks[1..], syms, Some(b.region), r);
        BlockGapsBeside(c, blocks[1..], syms, Some(Merged(buf, b.region)), r);
      }
    }
  }

  /** In a laminar region, roots are apart and gaps meet no symbol. */
  lemma RootBlocksBeside(r: Region, syms: seq<Symbol>)
    requires Prepared(syms) && Laminar(syms) && AllWithin(syms, r) && Roots(r, syms, syms) != []
    ensures forall b :: b in Blocks(r.start, Roots(r, syms, syms), r.end) ==> BlockBeside(b, syms)
  {
    var roots := Roots(r, syms, syms);
    var blocks := Blocks(r.start, roots, r.end);
    RootsSpec(r, syms, syms);
    RootsAscend(r, syms);
    RootsApart(r, syms);
    forall b | b in blocks ensures BlockBeside(b, syms) {
      BlockOrigin(r.start, roots, r.end, b);
      match b.sym
      case Some(x) =>
        assert !HasContainer(x, syms);
        forall s | s in syms && s != x ensures Disjoint(RegionOf(x), RegionOf(s)) || StrictlyContains(x, s) {
          assert !StrictlyContains(s, x);
        }
      case None =>
        forall s | s in syms ensures Disjoint(b.region, RegionOf(s)) {
          var x := RootAbove(r, syms, s);
          assert Disjoint(b.region, RegionOf(x));
        }
    }
  }

  /** A block is that of a root, or lies between the roots. */
  lemma {:induction false} BlockOrigin(cursor: int, roots: seq<Symbol>, end: int, b: Block)
    requires b in Blocks(cursor, roots, end) && ApartIn(roots, cursor, end)
    ensures cursor <= b.region.start
    ensures b.sym.Some? ==> b.sym.value in roots && b.region == RegionOf(b.sym.value)
    ensures b.sym.None? ==> forall x :: x in roots ==> Disjoint(b.region, RegionOf(x))
    decreases |roots|
  {
    if roots != [] {
      var s, rest := roots[0], Blocks(roots[0].endLine + 1, roots[1..], end);
      ApartTail(roots, cursor, end);
      assert forall x :: x in roots[1..] ==> s.endLine + 1 <= x.startLine;
      if b in rest {
        BlockOrigin(s.endLine + 1, roots[1..], end, b);
      }
      forall x ensures x in roots <==> x == s || x in roots[1..] {
        InSplit(roots, x);
      }
    }
  }
}
