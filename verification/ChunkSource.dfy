/** `chunkSource` and the packing loops in the program's form. */
module ChunkSource {
  import opened Common
  import opened Sorting
  import opened CastChunker
  import opened ChunkTheorems
  import opened ChunkLaws
  import opened Lines

  datatype Chunk = Chunk(startLine: int, endLine: int, text: string, symbols: seq<string>, kind: Kind)

  // ----- selecting the symbols -----

  function SameKey(a: Symbol, b: Symbol): bool {
    a.startLine == b.startLine && a.endLine == b.endLine && a.name == b.name
  }

  function Structural(s: Symbol): bool {
    s.kind != Call && s.endLine >= s.startLine && s.startLine >= 1
  }

  /** Well-formed structural symbols, the first of each (range, name) key. */
  function Select(symbols: seq<Symbol>, seen: seq<Symbol>): seq<Symbol>
    decreases |symbols|
  {
    if symbols == [] then seen
    else
      var s := symbols[0];
      var isNew := Structural(s) && forall k :: 0 <= k < |seen| ==> !SameKey(seen[k], s);
      Select(symbols[1..], if isNew then seen + [s] else seen)
  }

  /** By start line, longer ranges first. */
  function Prepare(symbols: seq<Symbol>): seq<Symbol> {
    Sort((a: Symbol, b: Symbol) => Before(a, b), Select(symbols, []))
  }

  /** Distinct keys among the selected symbols. */
  ghost predicate DistinctKeys(s: seq<Symbol>) {
    forall i, j :: 0 <= i < j < |s| ==> !SameKey(s[i], s[j])
  }

  ghost predicate Represented(s: Symbol, seen: seq<Symbol>) {
    exists k :: 0 <= k < |seen| && SameKey(seen[k], s)
  }

  lemma {:induction false} SelectSpec(symbols: seq<Symbol>, seen: seq<Symbol>)
    requires DistinctKeys(seen) && forall s :: s in seen ==> Structural(s)
    ensures DistinctKeys(Select(symbols, seen)) && seen <= Select(symbols, seen)
    ensures forall s :: s in Select(symbols, seen) ==> Structural(s) && (s in seen || s in symbols)
    ensures forall s :: s in symbols && Structural(s) ==> Represented(s, Select(symbols, seen))
    decreases |symbols|
  {
    if symbols != [] {
      var s := symbols[0];
      var isNew := Structural(s) && forall k :: 0 <= k < |seen| ==> !SameKey(seen[k], s);
      var seen' := if isNew then seen + [s] else seen;
      SelectSpec(symbols[1..], seen');
      var r := Select(symbols[1..], seen');
      assert forall k :: 0 <= k < |seen'| ==> r[k] == seen'[k];
      if Structural(s) {
        var k :| 0 <= k < |seen'| && SameKey(seen'[k], s);
        assert SameKey(r[k], s);
      }
      forall x ensures x in symbols <==> x == s || x in symbols[1..] {
        InSplit(symbols, x);
      }
    }
  }

  /** A symbol of the same range and name. */
  ghost predicate HasTwin(s: Symbol, syms: seq<Symbol>) {
    exists t :: t in syms && t.startLine == s.startLine && t.endLine == s.endLine && t.name == s.name
  }

  /** Earlier start, or the same start and no shorter; and not the same range and name again. */
  ghost predicate InReadingOrder(a: Symbol, b: Symbol) {
    && (a.startLine < b.startLine || (a.startLine == b.startLine && a.endLine >= b.endLine))
    && !(a.startLine == b.startLine && a.endLine == b.endLine && a.name == b.name)
  }

  /** The selected symbols are well-formed, distinct and ordered, come from the parse
      result, and stand for every structural symbol of it. */
  lemma PrepareSpec(symbols: seq<Symbol>)
    ensures Prepared(Prepare(symbols))
    ensures forall s :: s in Prepare(symbols) ==> s in symbols && s.kind != Call && 1 <= s.startLine <= s.endLine
    ensures forall s :: s in symbols && s.kind != Call && 1 <= s.startLine <= s.endLine ==> HasTwin(s, Prepare(symbols))
    ensures forall i, j :: 0 <= i < j < |Prepare(symbols)| ==> InReadingOrder(Prepare(symbols)[i], Prepare(symbols)[j])
  {
    SelectSpec(symbols, []);
    var kept := Select(symbols, []);
    var before := (a: Symbol, b: Symbol) => Before(a, b);
    assert forall i, j :: 0 <= i < j < |kept| ==> kept[i] != kept[j];
    SortKeeps(before, kept);
    SortNoDup(before, kept);
    SortInOrder(before, kept);
    var sorted := Prepare(symbols);
    forall i, j | 0 <= i < j < |sorted| ensures Before(sorted[i], sorted[j]) {
      assert before(sorted[i], sorted[j]);
    }
    forall i, j | 0 <= i < j < |sorted| ensures InReadingOrder(sorted[i], sorted[j]) {
      var a, b := sorted[i], sorted[j];
      assert a in sorted && b in sorted && Before(a, b) && a != b;
      KeysApart(kept, a, b);
    }
    forall s | s in symbols && Structural(s) ensures HasTwin(s, Prepare(symbols)) {
      var k :| 0 <= k < |kept| && SameKey(kept[k], s);
      var t := kept[k];
      assert t in kept;
      assert t in Prepare(symbols);
    }
  }

  lemma KeysApart(kept: seq<Symbol>, a: Symbol, b: Symbol)
    requires DistinctKeys(kept) && a in kept && b in kept && a != b
    ensures !SameKey(a, b)
  {
    var i :| 0 <= i < |kept| && kept[i] == a;
    var j :| 0 <= j < |kept| && kept[j] == b;
    assert i < j || j < i;
  }

  // ----- chunks -----

  function NamesWithin(syms: seq<Symbol>, r: Region): seq<string> {
    if syms == [] then []
    else (if Within(RegionOf(syms[0]), r) then [syms[0].name] else []) + NamesWithin(syms[1..], r)
  }

  function ToChunk(lines: seq<string>, syms: seq<Symbol>, q: Piece): Chunk {
    Chunk(q.region.start, q.region.end, Join(Slice(lines, q.region)), NamesWithin(syms, q.region), q.kind)
  }

  function ToChunks(lines: seq<string>, syms: seq<Symbol>, pieces: seq<Piece>): seq<Chunk> {
    if pieces == [] then [] else [ToChunk(lines, syms, pieces[0])] + ToChunks(lines, syms, pieces[1..])
  }

  ghost function Texts(chunks: seq<Chunk>): seq<string> {
    seq(|chunks|, i requires 0 <= i < |chunks| => chunks[i].text)
  }

  lemma ToChunksAppend(lines: seq<string>, syms: seq<Symbol>, pieces: seq<Piece>, q: Piece)
    ensures ToChunks(lines, syms, pieces + [q]) == ToChunks(lines, syms, pieces) + [ToChunk(lines, syms, q)]
    decreases |pieces|
  {
    if pieces == [] {
      assert ([] + [q])[1..] == [];
    } else {
      ToChunksAppend(lines, syms, pieces[1..], q);
      assert (pieces + [q])[1..] == pieces[1..] + [q];
    }
  }

  /** Joining the texts of a tiling gives back the tiled lines. */
  lemma {:induction false} TilesJoin(lines: seq<string>, syms: seq<Symbol>, pieces: seq<Piece>, a: int, b: int)
    requires Tiles(pieces, a, b) && 1 <= a <= b <= |lines|
    ensures Join(Texts(ToChunks(lines, syms, pieces))) == Join(lines[a - 1..b])
    decreases |pieces|
  {
    var q, rest := pieces[0], pieces[1..];
    var texts := Texts(ToChunks(lines, syms, rest));
    TextsHead(lines, syms, pieces);
    TilesHead(pieces, a, b);
    var head := lines[a - 1..q.region.end];
    assert Slice(lines, q.region) == head;
    hide Tiles, ToChunks, Texts, Slice, Join;
    JoinCons(Join(head), texts);
    if rest != [] {
      TilesJoin(lines, syms, rest, q.region.end + 1, b);
      var tail := lines[q.region.end..b];
      SplitSlice(lines, a - 1, q.region.end, b);
      JoinConcat(head, tail);
    }
  }

  lemma TilesHead(pieces: seq<Piece>, a: int, b: int)
    requires Tiles(pieces, a, b) && a <= b
    ensures pieces != [] && pieces[0].region.start == a <= pieces[0].region.end <= b
    ensures Tiles(pieces[1..], pieces[0].region.end + 1, b)
    ensures pieces[1..] == [] <==> pieces[0].region.end == b
  {
    TilesHoldOnce(pieces[1..], pieces[0].region.end + 1, b, a);
    if |pieces| > 1 {
      TilesHoldOnce(pieces[1..][1..], pieces[1].region.end + 1, b, a);
    }
  }

  lemma JoinCons(line: string, rest: seq<string>)
    ensures Join([line] + rest) == if rest == [] then line else line + "\n" + Join(rest)
  {
    assert ([line] + rest)[1..] == rest;
  }

  lemma TextsHead(lines: seq<string>, syms: seq<Symbol>, pieces: seq<Piece>)
    requires pieces != []
    ensures var texts := Texts(ToChunks(lines, syms, pieces[1..]));
            Texts(ToChunks(lines, syms, pieces)) == [Join(Slice(lines, pieces[0].region))] + texts
    ensures |Texts(ToChunks(lines, syms, pieces[1..]))| >= 1 <==> pieces[1..] != []
  {
  }

  /** The pieces of a whole source. */
  function Pieces(source: string, symbols: seq<Symbol>, maxNonWs: int, maxLines: int): seq<Piece> {
    var lines := Split(source);
    Pack(Config(lines, maxNonWs, maxLines), Region(1, |lines|), Prepare(symbols))
  }

  /** Every source: each line is in a piece, and each piece is a line or within the budget. */
  lemma ChunksCoverInBudget(source: string, symbols: seq<Symbol>, maxNonWs: int, maxLines: int)
    ensures GoodCover(Config(Split(source), maxNonWs, maxLines), Pieces(source, symbols, maxNonWs, maxLines),
                      Region(1, |Split(source)|))
  {
    PrepareSpec(symbols);
    PackGood(Config(Split(source), maxNonWs, maxLines), Region(1, |Split(source)|), Prepare(symbols));
  }

  /** Laminar symbols: the pieces tile the file, and joining the chunk texts gives back the source. */
  lemma ChunksRoundTrip(source: string, symbols: seq<Symbol>, maxNonWs: int, maxLines: int)
    requires Laminar(Prepare(symbols))
    ensures var pieces := Pieces(source, symbols, maxNonWs, maxLines);
            && Tiles(pieces, 1, |Split(source)|)
            && Join(Texts(ToChunks(Split(source), Prepare(symbols), pieces))) == source
  {
    var lines := Split(source);
    PrepareSpec(symbols);
    PackTiles(Config(lines, maxNonWs, maxLines), Region(1, |lines|), Prepare(symbols));
    TilesJoin(lines, Prepare(symbols), Pieces(source, symbols, maxNonWs, maxLines), 1, |lines|);
    assert lines[0..|lines|] == lines;
    JoinSplit(source);
  }

  // ----- the loops -----

  method CountNonWs(lines: seq<string>, r: Region) returns (n: nat)
    ensures n == NonWsSize(lines, r)
    ensures 1 <= r.start <= r.end <= |lines| ==> n == Ink(TextOf(lines, r))
  {
    if 1 <= r.start <= r.end <= |lines| {
      SizeIsInk(lines, r);
    }
    var slice := Slice(lines, r);
    n := 0;
    for i := 0 to |slice|
      invariant n == Total(slice[..i])
    {
      var line := slice[i];
      assert slice[..i + 1][..i] == slice[..i];
      var m := 0;
      for j := 0 to |line|
        invariant m == LineSize(line[..j])
      {
        assert line[..j + 1][..j] == line[..j];
        if !IsSpace(line[j]) {
          m := m + 1;
        }
      }
      assert line[..|line|] == line;
      n := n + m;
    }
    assert slice[..|slice|] == slice;
  }

  class Chunker {
    const c: Config
    const symbols: seq<Symbol>
    ghost var pieces: seq<Piece>
    var chunks: seq<Chunk>

    ghost predicate Valid()
      reads this
    {
      chunks == ToChunks(c.lines, symbols, pieces)
    }

    constructor (c: Config, symbols: seq<Symbol>)
      ensures Valid() && this.c == c && this.symbols == symbols && pieces == []
    {
      this.c, this.symbols, pieces, chunks := c, symbols, [], [];
    }

    method Emit(r: Region, kind: Kind)
      requires Valid()
      modifies this
      ensures Valid()
      ensures pieces == old(pieces) + (if r.end < r.start then [] else [Piece(r, kind)])
    {
      if r.end < r.start {
        return;
      }
      ToChunksAppend(c.lines, symbols, pieces, Piece(r, kind));
      pieces := pieces + [Piece(r, kind)];
      chunks := chunks + [ToChunk(c.lines, symbols, Piece(r, kind))];
    }

    /** How far the piece that starts at `start` can extend. */
    method ExtendPiece(start: int, limit: int) returns (end: int)
      requires start <= limit
      ensures end == Extend(c, start, start, limit)
    {
      end := start;
      while end < limit && end - start + 1 < c.maxLines
        invariant start <= end <= limit
        invariant Extend(c, start, start, limit) == Extend(c, start, end, limit)
      {
        var size := CountNonWs(c.lines, Region(start, end + 1));
        if size > c.maxNonWs {
          break;
        }
        end := end + 1;
      }
    }

    method HardSplitLoop(r: Region, kind: Kind)
      requires Valid()
      modifies this
      ensures Valid() && pieces == old(pieces) + HardSplit(c, r, kind)
    {
      hide Valid, Extend, NonWsSize;
      var start := r.start;
      while start <= r.end
        invariant Valid()
        invariant pieces + HardSplit(c, Region(start, r.end), kind) == old(pieces) + HardSplit(c, r, kind)
        decreases r.end - start + 1
      {
        var end := ExtendPiece(start, r.end);
        assert HardSplit(c, Region(start, r.end), kind) ==
               [Piece(Region(start, end), kind)] + HardSplit(c, Region(end + 1, r.end), kind);
        Emit(Region(start, end), kind);
        start := end + 1;
      }
    }

    /** Emit what is buffered, if anything. */
    method FlushBuffer(buf: Option<Region>)
      requires Valid()
      modifies this
      ensures Valid() && pieces == old(pieces) + Flush(buf)
    {
      if buf.Some? {
        Emit(buf.value, SymbolChunk);
      }
    }

    method PackRegion(r: Region, syms: seq<Symbol>)
      requires Valid()
      modifies this
      ensures Valid() && pieces == old(pieces) + Pack(c, r, syms)
      decreases |syms|, 2
    {
      var roots := Roots(r, syms, syms);
      if roots == [] {
        HardSplitLoop(r, GapChunk);
        return;
      }
      var blocks := BuildBlocks(r, roots);
      BlocksFromSymbols(r.start, roots, r.end, syms);
      MergeBlocks(blocks, syms);
    }

    /** Greedily merge consecutive blocks up to the budget. */
    method MergeBlocks(blocks: seq<Block>, syms: seq<Symbol>)
      requires Valid() && FromSymbols(blocks, syms)
      modifies this
      ensures Valid() && pieces == old(pieces) + PackBlocks(c, blocks, syms, None)
      decreases |syms|, 1
    {
      hide Valid, PackOversized, FromSymbols, NonWsSize, Ink, TextOf, Flush;
      var buf: Option<Region> := None;
      ghost var all := old(pieces) + PackBlocks(c, blocks, syms, None);
      assert blocks[0..] == blocks;
      for i := 0 to |blocks|
        invariant Valid() && FromSymbols(blocks[i..], syms)
        invariant pieces + PackBlocks(c, blocks[i..], syms, buf) == all
      {
        var block := blocks[i];
        assert blocks[i..][0] == block && blocks[i..][1..] == blocks[i + 1..];
        FromHead(blocks[i..], syms);
        var size := CountNonWs(c.lines, block.region);
        var oversized := size > c.maxNonWs || block.region.end - block.region.start + 1 > c.maxLines;
        assert oversized == Oversized(c, block.region);
        if oversized {
          FlushBuffer(buf);
          buf := None;
          DecomposeBlock(block, syms);
        } else {
          var merged := 0;
          if buf.Some? {
            merged := CountNonWs(c.lines, Region(buf.value.start, block.region.end));
          }
          if buf.Some? && merged > c.maxNonWs {
            FlushBuffer(buf);
            buf := None;
          }
          buf := Some(Merged(buf, block.region));
        }
      }
      FlushBuffer(buf);
    }

    /** Recurse into an oversized symbol, or cut an oversized leaf or gap by lines. */
    method DecomposeBlock(block: Block, syms: seq<Symbol>)
      requires Valid() && (block.sym.Some? ==> block.sym.value in syms)
      modifies this
      ensures Valid() && pieces == old(pieces) + PackOversized(c, block, syms)
      decreases |syms|, 0
    {
      if block.sym.Some? {
        var children := Children(block.sym.value, syms);
        if children != [] {
          PackRegion(block.region, children);
        } else {
          HardSplitLoop(block.region, SplitChunk);
        }
      } else {
        HardSplitLoop(block.region, GapChunk);
      }
    }
  }

  lemma BlocksStep(done: seq<Block>, cursor: int, roots: seq<Symbol>, end: int)
    requires roots != []
    ensures var s := roots[0];
            var gap := if s.startLine > cursor then [Block(Region(cursor, s.startLine - 1), None)] else [];
            done + Blocks(cursor, roots, end) ==
            done + gap + [Block(RegionOf(s), Some(s))] + Blocks(s.endLine + 1, roots[1..], end)
  {
  }

  method BuildBlocks(r: Region, roots: seq<Symbol>) returns (blocks: seq<Block>)
    ensures blocks == Blocks(r.start, roots, r.end)
  {
    hide Blocks;
    blocks := [];
    var cursor := r.start;
    assert [] + Blocks(cursor, roots, r.end) == Blocks(r.start, roots, r.end);
    assert roots[0..] == roots;
    for i := 0 to |roots|
      invariant blocks + Blocks(cursor, roots[i..], r.end) == Blocks(r.start, roots, r.end)
    {
      var s := roots[i];
      assert roots[i..][0] == s && roots[i..][1..] == roots[i + 1..];
      BlocksStep(blocks, cursor, roots[i..], r.end);
      if s.startLine > cursor {
        blocks := blocks + [Block(Region(cursor, s.startLine - 1), None)];
      } else {
        assert blocks + [] == blocks;
      }
      blocks := blocks + [Block(RegionOf(s), Some(s))];
      cursor := s.endLine + 1;
    }
    LastBlocks(cursor, r.end);
    if cursor <= r.end {
      blocks := blocks + [Block(Region(cursor, r.end), None)];
    }
  }

  lemma LastBlocks(cursor: int, end: int)
    ensures Blocks(cursor, [], end) == if cursor <= end then [Block(Region(cursor, end), None)] else []
  {
  }

  // ----- what the chunks of a source are -----

  lemma {:induction false} ChunkOrigin(lines: seq<string>, syms: seq<Symbol>, pieces: seq<Piece>)
    ensures |ToChunks(lines, syms, pieces)| == |pieces|
    ensures forall i :: 0 <= i < |pieces| ==> ToChunks(lines, syms, pieces)[i] == ToChunk(lines, syms, pieces[i])
  {
    if pieces != [] {
      ChunkOrigin(lines, syms, pieces[1..]);
    }
  }

  /** The text of a chunk is that of its lines. */
  ghost predicate Honest(ch: Chunk, lines: seq<string>) {
    && 1 <= ch.startLine <= ch.endLine <= |lines|
    && ch.text == TextOf(lines, Region(ch.startLine, ch.endLine))
  }

  /** At most `maxNonWs` inked characters or a single line; unless it was merged, at most
      `maxLines` lines or a single one. */
  ghost predicate Budgeted(ch: Chunk, maxNonWs: int, maxLines: int) {
    && (Ink(ch.text) <= maxNonWs || ch.startLine == ch.endLine)
    && (ch.kind != SymbolChunk ==> ch.endLine - ch.startLine + 1 <= maxLines || ch.startLine == ch.endLine)
  }

  /** The chunk names exactly the structural symbols that lie in it. */
  ghost predicate NamesRight(ch: Chunk, symbols: seq<Symbol>) {
    forall name :: name in ch.symbols <==>
      exists s :: s in symbols && s.name == name && s.kind != Call &&
                  ch.startLine <= s.startLine <= s.endLine <= ch.endLine
  }

  ghost predicate Named(syms: seq<Symbol>, r: Region, name: string) {
    exists s :: s in syms && s.name == name && Within(RegionOf(s), r)
  }

  lemma NamedHead(syms: seq<Symbol>, r: Region, name: string)
    requires syms != []
    ensures Named(syms, r, name) <==>
            (syms[0].name == name && Within(RegionOf(syms[0]), r)) || Named(syms[1..], r, name)
  {
    if Named(syms, r, name) {
      var s :| s in syms && s.name == name && Within(RegionOf(s), r);
      InSplit(syms, s);
    }
    assert syms[0] in syms && forall s :: s in syms[1..] ==> s in syms;
  }

  lemma {:induction false} NamesExact(syms: seq<Symbol>, r: Region, name: string)
    ensures name in NamesWithin(syms, r) <==> Named(syms, r, name)
  {
    if syms != [] {
      NamesExact(syms[1..], r, name);
      NamedHead(syms, r, name);
      hide Named;
      var head := if Within(RegionOf(syms[0]), r) then [syms[0].name] else [];
      assert name in head <==> syms[0].name == name && Within(RegionOf(syms[0]), r);
    }
  }

  ghost function SymbolsIn(syms: seq<Symbol>, r: Region): set<Symbol> {
    set s | s in syms && Within(RegionOf(s), r)
  }

  /** As many names as symbols. */
  lemma {:induction false} NamesCount(syms: seq<Symbol>, r: Region)
    requires NoDup(syms)
    ensures |NamesWithin(syms, r)| == |SymbolsIn(syms, r)|
  {
    if syms == [] {
      assert SymbolsIn(syms, r) == {};
    } else {
      var s0, rest := syms[0], syms[1..];
      NamesCount(rest, r);
      forall s ensures s in SymbolsIn(syms, r) <==> s in SymbolsIn(rest, r) || (s == s0 && Within(RegionOf(s0), r)) {
        InSplit(syms, s);
      }
      assert SymbolsIn(syms, r) == SymbolsIn(rest, r) + (if Within(RegionOf(s0), r) then {s0} else {});
      assert s0 !in rest;
    }
  }

  /** The symbol kept for a structural symbol of the parse result. */
  lemma TwinOf(symbols: seq<Symbol>, s: Symbol) returns (t: Symbol)
    requires s in symbols && Structural(s)
    ensures t in Prepare(symbols) && RegionOf(t) == RegionOf(s) && t.name == s.name
  {
    PrepareSpec(symbols);
    t :| t in Prepare(symbols) && t.startLine == s.startLine && t.endLine == s.endLine && t.name == s.name;
  }

  lemma PreparedFrom(symbols: seq<Symbol>)
    ensures Prepared(Prepare(symbols))
    ensures forall s :: s in Prepare(symbols) ==> s in symbols && Structural(s)
  {
    PrepareSpec(symbols);
  }

  lemma PieceNames(symbols: seq<Symbol>, q: Piece, lines: seq<string>)
    requires 1 <= q.region.start
    ensures NamesRight(ToChunk(lines, Prepare(symbols), q), symbols)
    ensures |ToChunk(lines, Prepare(symbols), q).symbols| == |SymbolsIn(Prepare(symbols), q.region)|
  {
    var ch := ToChunk(lines, Prepare(symbols), q);
    PreparedFrom(symbols);
    NamesCount(Prepare(symbols), q.region);
    hide Prepare, NamesWithin;
    forall name
      ensures name in ch.symbols <==>
              exists s :: s in symbols && s.name == name && s.kind != Call &&
                          ch.startLine <= s.startLine <= s.endLine <= ch.endLine
    {
      NamesExact(Prepare(symbols), q.region, name);
      if s :| s in symbols && s.name == name && s.kind != Call &&
              ch.startLine <= s.startLine <= s.endLine <= ch.endLine {
        var t := TwinOf(symbols, s);
        assert Within(RegionOf(t), q.region);
      }
    }
  }

  lemma PieceChunk(source: string, symbols: seq<Symbol>, maxNonWs: int, maxLines: int, q: Piece)
    requires q in Pieces(source, symbols, maxNonWs, maxLines)
    ensures var ch := ToChunk(Split(source), Prepare(symbols), q);
            Honest(ch, Split(source)) && Budgeted(ch, maxNonWs, maxLines)
  {
    ChunksCoverInBudget(source, symbols, maxNonWs, maxLines);
    SizeIsInk(Split(source), q.region);
  }

  /** A structural symbol that fits the budget and the ceiling. */
  ghost predicate Fits(s: Symbol, lines: seq<string>, maxNonWs: int, maxLines: int) {
    && 1 <= s.startLine <= s.endLine <= |lines| && s.endLine - s.startLine + 1 <= maxLines
    && Ink(TextOf(lines, RegionOf(s))) <= maxNonWs
  }

  lemma FittingWhole(source: string, symbols: seq<Symbol>, maxNonWs: int, maxLines: int, s: Symbol) returns (q: Piece)
    requires forall t :: t in symbols && Structural(t) ==> t.endLine <= |Split(source)|
    requires s in symbols && s.kind != Call && Fits(s, Split(source), maxNonWs, maxLines)
    ensures q in Pieces(source, symbols, maxNonWs, maxLines) && Within(RegionOf(s), q.region)
  {
    var lines, syms := Split(source), Prepare(symbols);
    var c, r := Config(lines, maxNonWs, maxLines), Region(1, |lines|);
    PreparedFrom(symbols);
    var t := TwinOf(symbols, s);
    assert AllWithin(syms, r);
    SizeIsInk(lines, RegionOf(t));
    hide Prepare, Prepared, Roots, Pack, AllWithin, NonWsSize;
    assert !Oversized(c, RegionOf(t));
    var x := RootAbove(r, syms, t);
    FittingSymbolWhole(c, r, syms, t);
    q :| q in Pack(c, r, syms) && Within(RegionOf(t), q.region);
  }

  /** Without structural symbols the file is cut by lines, none of the pieces too early. */
  lemma NoSymbolsSplit(source: string, symbols: seq<Symbol>, maxNonWs: int, maxLines: int)
    requires forall s :: s in symbols ==> !Structural(s)
    ensures var pieces, lines := Pieces(source, symbols, maxNonWs, maxLines), Split(source);
            && Tiles(pieces, 1, |lines|)
            && (forall q :: q in pieces ==> q.kind == GapChunk)
            && (forall q :: q in pieces ==> Full(Config(lines, maxNonWs, maxLines), q.region, |lines|))
  {
    PreparedFrom(symbols);
    HeadIn(Prepare(symbols));
    var c, r := Config(Split(source), maxNonWs, maxLines), Region(1, |Split(source)|);
    HardSplitGood(c, r, GapChunk);
    SplitFull(c, r, GapChunk);
  }

  /** The chunk could not have taken the next line of the file too. */
  ghost predicate FullChunk(ch: Chunk, lines: seq<string>, maxNonWs: int, maxLines: int) {
    1 <= ch.startLine <= ch.endLine < |lines| ==>
      || ch.endLine - ch.startLine + 1 >= maxLines
      || Ink(TextOf(lines, Region(ch.startLine, ch.endLine + 1))) > maxNonWs
  }

  lemma NoSymbolsFull(source: string, symbols: seq<Symbol>, maxNonWs: int, maxLines: int, q: Piece)
    requires forall s :: s in symbols ==> !Structural(s)
    requires q in Pieces(source, symbols, maxNonWs, maxLines)
    ensures FullChunk(ToChunk(Split(source), Prepare(symbols), q), Split(source), maxNonWs, maxLines)
  {
    NoSymbolsSplit(source, symbols, maxNonWs, maxLines);
    hide Pieces, Tiles, Prepare, Structural, Split, Full, FullChunk, ToChunk;
    FullInk(Config(Split(source), maxNonWs, maxLines), Prepare(symbols), q);
  }

  lemma FullInk(c: Config, syms: seq<Symbol>, q: Piece)
    requires Full(c, q.region, |c.lines|)
    ensures FullChunk(ToChunk(c.lines, syms, q), c.lines, c.maxNonWs, c.maxLines)
  {
    var r := q.region;
    hide NonWsSize, Ink, TextOf, Slice, NamesWithin;
    if 1 <= r.start <= r.end < |c.lines| {
      SizeIsInk(c.lines, Region(r.start, r.end + 1));
    }
  }

  ghost predicate HeldBy(chunks: seq<Chunk>, start: int, end: int) {
    exists ch :: ch in chunks && ch.startLine <= start && end <= ch.endLine
  }

  /** `chunkSource`: each line is in a chunk; each chunk holds the text of its lines and the
      names of its symbols and keeps to the budget; a symbol that fits is in one chunk. */
  method ChunkAll(source: string, symbols: seq<Symbol>, maxNonWs: int, maxLines: int) returns (chunks: seq<Chunk>)
    ensures chunks == ToChunks(Split(source), Prepare(symbols), Pieces(source, symbols, maxNonWs, maxLines))
    ensures Laminar(Prepare(symbols)) ==> Join(Texts(chunks)) == source
    ensures forall ch :: ch in chunks ==>
              Honest(ch, Split(source)) && Budgeted(ch, maxNonWs, maxLines) && NamesRight(ch, symbols)
    ensures forall line :: 1 <= line <= |Split(source)| ==> HeldBy(chunks, line, line)
    ensures (forall s :: s in symbols && Structural(s) ==> s.endLine <= |Split(source)|) ==>
              forall s :: s in symbols && s.kind != Call && Fits(s, Split(source), maxNonWs, maxLines) ==>
                HeldBy(chunks, s.startLine, s.endLine)
    ensures (forall s :: s in symbols ==> !Structural(s)) ==>
              forall ch :: ch in chunks ==> FullChunk(ch, Split(source), maxNonWs, maxLines)
  {
    var lines := Split(source);
    var chunker := new Chunker(Config(lines, maxNonWs, maxLines), Prepare(symbols));
    chunker.PackRegion(Region(1, |lines|), Prepare(symbols));
    chunks := chunker.chunks;
    assert [] + Pieces(source, symbols, maxNonWs, maxLines) == Pieces(source, symbols, maxNonWs, maxLines);
    if Laminar(Prepare(symbols)) {
      ChunksRoundTrip(source, symbols, maxNonWs, maxLines);
    }
    ChunksAreTrue(source, symbols, maxNonWs, maxLines);
  }

  lemma ChunksAreTrue(source: string, symbols: seq<Symbol>, maxNonWs: int, maxLines: int)
    ensures var lines := Split(source);
            var chunks := ToChunks(lines, Prepare(symbols), Pieces(source, symbols, maxNonWs, maxLines));
            && (forall ch :: ch in chunks ==>
                  Honest(ch, lines) && Budgeted(ch, maxNonWs, maxLines) && NamesRight(ch, symbols))
            && (forall line :: 1 <= line <= |lines| ==> HeldBy(chunks, line, line))
            && ((forall s :: s in symbols && Structural(s) ==> s.endLine <= |lines|) ==>
                  forall s :: s in symbols && s.kind != Call && Fits(s, lines, maxNonWs, maxLines) ==>
                    HeldBy(chunks, s.startLine, s.endLine))
            && ((forall s :: s in symbols ==> !Structural(s)) ==>
                  forall ch :: ch in chunks ==> FullChunk(ch, lines, maxNonWs, maxLines))
  {
    var lines, syms, pieces := Split(source), Prepare(symbols), Pieces(source, symbols, maxNonWs, maxLines);
    var chunks := ToChunks(lines, syms, pieces);
    ChunkOrigin(lines, syms, pieces);
    hide Prepare, Pieces, ToChunks, Honest, Budgeted, NamesRight, FullChunk, Structural, Fits;
    forall ch | ch in chunks
      ensures Honest(ch, lines) && Budgeted(ch, maxNonWs, maxLines) && NamesRight(ch, symbols)
      ensures (forall s :: s in symbols ==> !Structural(s)) ==> FullChunk(ch, lines, maxNonWs, maxLines)
    {
      var i :| 0 <= i < |chunks| && chunks[i] == ch;
      var q := pieces[i];
      assert q in pieces;
      PieceChunk(source, symbols, maxNonWs, maxLines, q);
      assert 1 <= q.region.start by { ChunksCoverInBudget(source, symbols, maxNonWs, maxLines); }
      PieceNames(symbols, q, lines);
      if forall s :: s in symbols ==> !Structural(s) {
        NoSymbolsFull(source, symbols, maxNonWs, maxLines, q);
      }
    }
    forall line | 1 <= line <= |lines| ensures HeldBy(chunks, line, line) {
      ChunksCoverInBudget(source, symbols, maxNonWs, maxLines);
      assert Holds(Region(1, |lines|), line);
      var q :| q in pieces && Holds(q.region, line);
      PieceHolds(lines, syms, pieces, q, line, line);
    }
    if forall s :: s in symbols && Structural(s) ==> s.endLine <= |lines| {
      forall s | s in symbols && s.kind != Call && Fits(s, lines, maxNonWs, maxLines)
        ensures HeldBy(chunks, s.startLine, s.endLine)
      {
        var q := FittingWhole(source, symbols, maxNonWs, maxLines, s);
        PieceHolds(lines, syms, pieces, q, s.startLine, s.endLine);
      }
    }
  }

  lemma PieceHolds(lines: seq<string>, syms: seq<Symbol>, pieces: seq<Piece>, q: Piece, start: int, end: int)
    requires q in pieces && q.region.start <= start && end <= q.region.end
    ensures HeldBy(ToChunks(lines, syms, pieces), start, end)
  {
    ChunkOrigin(lines, syms, pieces);
    var i :| 0 <= i < |pieces| && pieces[i] == q;
    var ch := ToChunks(lines, syms, pieces)[i];
    assert ch in ToChunks(lines, syms, pieces);
  }
}
