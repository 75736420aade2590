/** The structural chunker (packages/code/src/indexer/cast-chunker.ts). */
module CastChunker {
  import opened Common

  datatype SymbolType = Function | Method | Class | Call

  datatype Symbol = Symbol(name: string, kind: SymbolType, startLine: int, endLine: int)

  /** 1-based inclusive line range. */
  datatype Region = Region(start: int, end: int)

  datatype Kind = SymbolChunk | SplitChunk | GapChunk

  datatype Piece = Piece(region: Region, kind: Kind)

  datatype Config = Config(lines: seq<string>, maxNonWs: int, maxLines: int)

  datatype Block = Block(region: Region, sym: Option<Symbol>)

  // ----- sizes -----

  predicate IsSpace(ch: char) {
    || ch == ' ' || '\t' <= ch <= '\r' || ch == '\U{00A0}' || ch == '\U{1680}'
    || '\U{2000}' <= ch <= '\U{200A}' || ch == '\U{2028}' || ch == '\U{2029}'
    || ch == '\U{202F}' || ch == '\U{205F}' || ch == '\U{3000}' || ch == '\U{FEFF}'
  }

  function LineSize(line: string): nat {
    if line == "" then 0
    else LineSize(line[..|line| - 1]) + (if IsSpace(line[|line| - 1]) then 0 else 1)
  }

  /** Non-whitespace characters in the first k lines of the list. */
  function Total(lines: seq<string>): nat {
    if lines == [] then 0 else Total(lines[..|lines| - 1]) + LineSize(lines[|lines| - 1])
  }

  function Slice(lines: seq<string>, r: Region): seq<string> {
    var lo := if r.start < 1 then 0 else if r.start - 1 > |lines| then |lines| else r.start - 1;
    var hi := if r.end < lo then lo else if r.end > |lines| then |lines| else r.end;
    lines[lo..hi]
  }

  function NonWsSize(lines: seq<string>, r: Region): nat {
    Total(Slice(lines, r))
  }

  function Within(r: Region, outer: Region): bool {
    outer.start <= r.start && r.end <= outer.end
  }

  function RegionOf(s: Symbol): Region {
    Region(s.startLine, s.endLine)
  }

  /** p's range contains s's and is not equal to it. */
  predicate StrictlyContains(p: Symbol, s: Symbol) {
    Within(RegionOf(s), RegionOf(p)) && RegionOf(p) != RegionOf(s)
  }

  // ----- the chunker as functions -----

  predicate HasContainer(s: Symbol, syms: seq<Symbol>) {
    exists p :: p in syms && p != s && StrictlyContains(p, s)
  }

  /** Symbols of `rest` that lie in the region and have no container among `syms`. */
  function Roots(r: Region, syms: seq<Symbol>, rest: seq<Symbol>): (roots: seq<Symbol>)
    ensures |roots| <= |rest| && forall s :: s in roots ==> s in rest
  {
    if rest == [] then []
    else
      var keep := Within(RegionOf(rest[0]), r) && !HasContainer(rest[0], syms);
      (if keep then [rest[0]] else []) + Roots(r, syms, rest[1..])
  }

  /** The other symbols of `rest` inside the range of `sym`. */
  function Children(sym: Symbol, rest: seq<Symbol>): (children: seq<Symbol>)
    ensures |children| <= |rest| && (sym in rest ==> |children| < |rest|)
    ensures forall c :: c in children ==> c in rest
  {
    if rest == [] then []
    else
      var keep := rest[0] != sym && Within(RegionOf(rest[0]), RegionOf(sym));
      InSplit(rest, sym);
      (if keep then [rest[0]] else []) + Children(sym, rest[1..])
  }

  /** The ordered cover of the region: one block per root, and the gaps. */
  function Blocks(cursor: int, roots: seq<Symbol>, end: int): seq<Block>
    decreases |roots|
  {
    if roots == [] then (if cursor <= end then [Block(Region(cursor, end), None)] else [])
    else
      var s := roots[0];
      (if s.startLine > cursor then [Block(Region(cursor, s.startLine - 1), None)] else [])
      + [Block(RegionOf(s), Some(s))]
      + Blocks(s.endLine + 1, roots[1..], end)
  }

  /** How far a hard-split piece that starts at `start` extends. */
  function Extend(c: Config, start: int, end: int, limit: int): (r: int)
    requires start <= end <= limit
    ensures end <= r <= limit
    decreases limit - end
  {
    if end < limit && end - start + 1 < c.maxLines && NonWsSize(c.lines, Region(start, end + 1)) <= c.maxNonWs
    then Extend(c, start, end + 1, limit) else end
  }

  function HardSplit(c: Config, r: Region, kind: Kind): seq<Piece>
    decreases r.end - r.start
  {
    if r.start > r.end then []
    else
      var end := Extend(c, r.start, r.start, r.end);
      [Piece(Region(r.start, end), kind)] + HardSplit(c, Region(end + 1, r.end), kind)
  }

  predicate Oversized(c: Config, r: Region) {
    NonWsSize(c.lines, r) > c.maxNonWs || r.end - r.start + 1 > c.maxLines
  }

  function Flush(buf: Option<Region>): seq<Piece> {
    if buf.Some? && buf.value.start <= buf.value.end then [Piece(buf.value, SymbolChunk)] else []
  }

  predicate FromSymbols(blocks: seq<Block>, syms: seq<Symbol>) {
    forall b :: b in blocks && b.sym.Some? ==> b.sym.value in syms
  }

  function Pack(c: Config, r: Region, syms: seq<Symbol>): seq<Piece>
    decreases |syms|, 2, 0
  {
    var roots := Roots(r, syms, syms);
    if roots == [] then HardSplit(c, r, GapChunk)
    else
      BlocksFromSymbols(r.start, roots, r.end, syms);
      PackBlocks(c, Blocks(r.start, roots, r.end), syms, None)
  }

  function PackOversized(c: Config, b: Block, syms: seq<Symbol>): seq<Piece>
    requires b.sym.Some? ==> b.sym.value in syms
    decreases |syms|, 0, 0
  {
    if b.sym.Some? then
      var children := Children(b.sym.value, syms);
      if children != [] then Pack(c, b.region, children) else HardSplit(c, b.region, SplitChunk)
    else HardSplit(c, b.region, GapChunk)
  }

  /** Greedy merge of the remaining blocks, given the buffered range. */
  function PackBlocks(c: Config, blocks: seq<Block>, syms: seq<Symbol>, buf: Option<Region>): seq<Piece>
    requires FromSymbols(blocks, syms)
    decreases |syms|, 1, |blocks|
  {
    if blocks == [] then Flush(buf)
    else
      var b := blocks[0];
      assert b in blocks;
      TailFromSymbols(blocks, syms);
      if Oversized(c, b.region) then
        Flush(buf) + PackOversized(c, b, syms) + PackBlocks(c, blocks[1..], syms, None)
      else if buf.Some? && NonWsSize(c.lines, Region(buf.value.start, b.region.end)) > c.maxNonWs then
        Flush(buf) + PackBlocks(c, blocks[1..], syms, Some(b.region))
      else
        PackBlocks(c, blocks[1..], syms, Some(Merged(buf, b.region)))
  }

  function Merged(buf: Option<Region>, r: Region): Region {
    if buf.Some? then Region(buf.value.start, r.end) else r
  }

  lemma TailFromSymbols(blocks: seq<Block>, syms: seq<Symbol>)
    requires FromSymbols(blocks, syms) && blocks != []
    ensures FromSymbols(blocks[1..], syms)
  {
    assert forall b :: b in blocks[1..] ==> b in blocks;
  }

  lemma {:induction false} BlocksFromSymbols(cursor: int, roots: seq<Symbol>, end: int, syms: seq<Symbol>)
    requires forall s :: s in roots ==> s in syms
    ensures FromSymbols(Blocks(cursor, roots, end), syms)
    decreases |roots|
  {
    if roots != [] {
      assert roots[0] in roots;
      assert forall s :: s in roots[1..] ==> s in roots;
      BlocksFromSymbols(roots[0].endLine + 1, roots[1..], end, syms);
    }
  }

  // ----- what the symbol filter guarantees -----

  predicate WellFormed(s: Symbol) {
    1 <= s.startLine <= s.endLine
  }

  predicate Before(a: Symbol, b: Symbol) {
    a.startLine < b.startLine || (a.startLine == b.startLine && a.endLine >= b.endLine)
  }

  ghost predicate Sorted(syms: seq<Symbol>) {
    forall i, j :: 0 <= i < j < |syms| ==> Before(syms[i], syms[j])
  }

  /** Symbols as `chunkSource` passes them on: well-formed, distinct, in order. */
  ghost predicate Prepared(syms: seq<Symbol>) {
    NoDup(syms) && Sorted(syms) && forall s :: s in syms ==> WellFormed(s)
  }

  /** `sub` keeps the order of `syms`. */
  ghost predicate PrefixOrder(sub: seq<Symbol>, syms: seq<Symbol>) {
    NoDup(sub) && Sorted(sub) && forall s :: s in sub ==> s in syms
  }

  lemma {:induction false} RootsSpec(r: Region, syms: seq<Symbol>, rest: seq<Symbol>)
    requires NoDup(rest) && Sorted(rest)
    ensures PrefixOrder(Roots(r, syms, rest), rest)
    ensures forall s :: s in Roots(r, syms, rest) <==>
              s in rest && Within(RegionOf(s), r) && !HasContainer(s, syms)
  {
    if rest != [] {
      var t := rest[1..];
      RootsSpec(r, syms, t);
      forall s ensures s in rest <==> s == rest[0] || s in t {
        InSplit(rest, s);
      }
      FirstBefore(rest, Roots(r, syms, t));
    }
  }

  /** Putting the head of an ordered list before a selection of its tail keeps the order. */
  lemma FirstBefore(rest: seq<Symbol>, sub: seq<Symbol>)
    requires rest != [] && NoDup(rest) && Sorted(rest) && PrefixOrder(sub, rest[1..])
    ensures NoDup([rest[0]] + sub) && Sorted([rest[0]] + sub)
  {
    forall k | 0 <= k < |sub| ensures sub[k] != rest[0] && Before(rest[0], sub[k]) {
      var s := sub[k];
      assert s in sub;
      assert s in rest[1..];
      var j :| 0 <= j < |rest[1..]| && rest[1..][j] == s;
      assert rest[j + 1] == s;
    }
  }

  lemma {:induction false} ChildrenSpec(sym: Symbol, rest: seq<Symbol>)
    requires NoDup(rest) && Sorted(rest)
    ensures PrefixOrder(Children(sym, rest), rest)
    ensures forall s :: s in Children(sym, rest) <==> s in rest && s != sym && Within(RegionOf(s), RegionOf(sym))
  {
    if rest != [] {
      var t := rest[1..];
      ChildrenSpec(sym, t);
      forall s ensures s in rest <==> s == rest[0] || s in t {
        InSplit(rest, s);
      }
      FirstBefore(rest, Children(sym, t));
    }
  }

  /** Roots come with nondecreasing starts and nondecreasing ends. */
  ghost predicate Ascending(roots: seq<Symbol>) {
    forall i, j :: 0 <= i < j < |roots| ==>
      roots[i].startLine <= roots[j].startLine && roots[i].endLine <= roots[j].endLine
  }

  lemma RootsAscend(r: Region, syms: seq<Symbol>)
    requires Prepared(syms)
    ensures Ascending(Roots(r, syms, syms))
    ensures forall s :: s in Roots(r, syms, syms) ==> WellFormed(s) && Within(RegionOf(s), r)
  {
    RootsSpec(r, syms, syms);
    var roots := Roots(r, syms, syms);
    forall i, j | 0 <= i < j < |roots|
      ensures roots[i].startLine <= roots[j].startLine && roots[i].endLine <= roots[j].endLine
    {
      var a, b := roots[i], roots[j];
      assert a in roots && b in roots;
      assert a != b && Before(a, b);
      if a.endLine > b.endLine {
        assert StrictlyContains(a, b);
      }
    }
  }

  lemma ChildrenPrepared(sym: Symbol, syms: seq<Symbol>)
    requires Prepared(syms)
    ensures Prepared(Children(sym, syms))
  {
    ChildrenSpec(sym, syms);
  }

  // ----- every input: cover and budget -----

  ghost predicate Holds(r: Region, line: int) {
    r.start <= line <= r.end
  }

  ghost predicate Covered(pieces: seq<Piece>, line: int) {
    exists q :: q in pieces && Holds(q.region, line)
  }

  ghost predicate Covers(pieces: seq<Piece>, r: Region) {
    forall line :: Holds(r, line) ==> Covered(pieces, line)
  }

  /** Within the size budget, or a single line; and, unless merged from symbol blocks,
      within the line ceiling too. */
  ghost predicate InBudget(c: Config, q: Piece) {
    && q.region.start <= q.region.end
    && (NonWsSize(c.lines, q.region) <= c.maxNonWs || q.region.start == q.region.end)
    && (q.kind != SymbolChunk ==>
          q.region.end - q.region.start + 1 <= c.maxLines || q.region.start == q.region.end)
  }

  ghost predicate AllGood(c: Config, pieces: seq<Piece>, r: Region) {
    forall q :: q in pieces ==> InBudget(c, q) && Within(q.region, r)
  }

  lemma CoveredConcat(a: seq<Piece>, b: seq<Piece>, line: int)
    ensures Covered(a + b, line) <==> Covered(a, line) || Covered(b, line)
  {
    if Covered(a, line) {
      var q :| q in a && Holds(q.region, line);
      assert q in a + b;
    }
    if Covered(b, line) {
      var q :| q in b && Holds(q.region, line);
      assert q in a + b;
    }
  }

  lemma {:induction false} ExtendInBudget(c: Config, start: int, end: int, limit: int, kind: Kind)
    requires start <= end <= limit && InBudget(c, Piece(Region(start, end), kind))
    ensures InBudget(c, Piece(Region(start, Extend(c, start, end, limit)), kind))
    decreases limit - end
  {
    if Extend(c, start, end, limit) != end {
      ExtendInBudget(c, start, end + 1, limit, kind);
    }
  }

  lemma {:induction false} HardSplitGood(c: Config, r: Region, kind: Kind)
    ensures Covers(HardSplit(c, r, kind), r) && AllGood(c, HardSplit(c, r, kind), r)
    ensures Tiles(HardSplit(c, r, kind), r.start, if r.start <= r.end then r.end else r.start - 1)
    decreases r.end - r.start
  {
    if r.start <= r.end {
      var end := Extend(c, r.start, r.start, r.end);
      ExtendInBudget(c, r.start, r.start, r.end, kind);
      var head, tail := [Piece(Region(r.start, end), kind)], HardSplit(c, Region(end + 1, r.end), kind);
      HardSplitGood(c, Region(end + 1, r.end), kind);
      assert (head + tail)[1..] == tail;
      forall line | Holds(r, line) ensures Covered(head + tail, line) {
        CoveredConcat(head, tail, line);
        if line <= end {
          assert head[0] in head && Holds(head[0].region, line);
        }
      }
    }
  }

  /** Consecutive blocks: starts and ends never fall, and each is a proper range in the region. */
  ghost predicate Ordered(blocks: seq<Block>, r: Region) {
    && (forall b :: b in blocks ==> b.region.start <= b.region.end && Within(b.region, r))
    && (forall i, j :: 0 <= i < j < |blocks| ==>
          blocks[i].region.start <= blocks[j].region.start && blocks[i].region.end <= blocks[j].region.end)
    && (forall b :: b in blocks && b.sym.Some? ==> b.region == RegionOf(b.sym.value))
  }

  ghost predicate StartsAfter(blocks: seq<Block>, start: int, end: int) {
    forall b :: b in blocks ==> start <= b.region.start && end <= b.region.end
  }

  lemma OrderedTail(blocks: seq<Block>, r: Region)
    requires Ordered(blocks, r) && blocks != []
    ensures Ordered(blocks[1..], r)
    ensures StartsAfter(blocks[1..], blocks[0].region.start, blocks[0].region.end)
  {
    assert forall b :: b in blocks[1..] ==> b in blocks;
    forall b | b in blocks[1..]
      ensures blocks[0].region.start <= b.region.start && blocks[0].region.end <= b.region.end
    {
      var j :| 0 <= j < |blocks[1..]| && blocks[1..][j] == b;
      assert blocks[j + 1] == b;
    }
  }

  lemma OrderedCons(b: Block, blocks: seq<Block>, r: Region)
    requires Ordered(blocks, r) && StartsAfter(blocks, b.region.start, b.region.end)
    requires b.region.start <= b.region.end && Within(b.region, r)
    requires b.sym.Some? ==> b.region == RegionOf(b.sym.value)
    ensures Ordered([b] + blocks, r)
  {
    var all := [b] + blocks;
    forall i, j | 0 <= i < j < |all|
      ensures all[i].region.start <= all[j].region.start && all[i].region.end <= all[j].region.end
    {
      var x := all[j];
      assert x == blocks[j - 1] && x in blocks;
    }
  }

  lemma StartsAfterCons(b: Block, blocks: seq<Block>, start: int, end: int)
    requires StartsAfter(blocks, b.region.start, b.region.end) && start <= b.region.start && end <= b.region.end
    ensures StartsAfter([b] + blocks, start, end)
  {
  }

  ghost predicate BlockHolds(blocks: seq<Block>, line: int) {
    exists b :: b in blocks && Holds(b.region, line)
  }

  lemma {:induction false} BlocksStartAfter(cursor: int, roots: seq<Symbol>, limit: int, start: int, end: int)
    requires start <= cursor && end < cursor
    requires forall s :: s in roots ==> WellFormed(s) && start <= s.startLine && end <= s.endLine
    ensures StartsAfter(Blocks(cursor, roots, limit), start, end)
    decreases |roots|
  {
    if roots != [] {
      assert roots[0] in roots;
      assert forall s :: s in roots[1..] ==> s in roots;
      BlocksStartAfter(roots[0].endLine + 1, roots[1..], limit, start, end);
    }
  }

  /** The blocks leave no line of the region out. */
  lemma {:induction false} BlocksCover(cursor: int, roots: seq<Symbol>, end: int, line: int)
    requires cursor <= line <= end
    ensures BlockHolds(Blocks(cursor, roots, end), line)
    decreases |roots|
  {
    var blocks := Blocks(cursor, roots, end);
    if roots == [] {
      assert blocks[0] in blocks && Holds(blocks[0].region, line);
    } else {
      var s := roots[0];
      if line < s.startLine {
        assert blocks[0] in blocks && Holds(blocks[0].region, line);
      } else if line <= s.endLine {
        var b := Block(RegionOf(s), Some(s));
        assert b in blocks && Holds(b.region, line);
      } else {
        BlocksCover(s.endLine + 1, roots[1..], end, line);
        var b :| b in Blocks(s.endLine + 1, roots[1..], end) && Holds(b.region, line);
        assert b in blocks;
      }
    }
  }

  lemma AscendingTail(roots: seq<Symbol>)
    requires Ascending(roots) && roots != []
    ensures Ascending(roots[1..])
    ensures forall t :: t in roots[1..] ==>
              t in roots && roots[0].startLine <= t.startLine && roots[0].endLine <= t.endLine
  {
    forall t | t in roots[1..]
      ensures t in roots && roots[0].startLine <= t.startLine && roots[0].endLine <= t.endLine
    {
      var j :| 0 <= j < |roots[1..]| && roots[1..][j] == t;
      assert roots[j + 1] == t;
    }
  }

  lemma GapOrdered(cursor: int, s: Symbol, rest: seq<Block>, r: Region)
    requires WellFormed(s) && Within(RegionOf(s), r) && r.start <= cursor
    requires Ordered(rest, r) && StartsAfter(rest, s.startLine, s.endLine)
    ensures Ordered((if s.startLine > cursor then [Block(Region(cursor, s.startLine - 1), None)] else []) +
                    [Block(RegionOf(s), Some(s))] + rest, r)
  {
    hide Ordered, StartsAfter;
    var b := Block(RegionOf(s), Some(s));
    OrderedCons(b, rest, r);
    if s.startLine > cursor {
      var gap := Block(Region(cursor, s.startLine - 1), None);
      StartsAfterCons(b, rest, cursor, s.startLine - 1);
      OrderedCons(gap, [b] + rest, r);
      assert [gap] + [b] + rest == [gap] + ([b] + rest);
    } else {
      assert [] + [b] + rest == [b] + rest;
    }
  }

  ghost predicate RootsIn(roots: seq<Symbol>, r: Region) {
    Ascending(roots) && forall s :: s in roots ==> WellFormed(s) && Within(RegionOf(s), r)
  }

  lemma RootsInTail(roots: seq<Symbol>, r: Region)
    requires RootsIn(roots, r) && roots != []
    ensures RootsIn(roots[1..], r) && WellFormed(roots[0]) && Within(RegionOf(roots[0]), r)
    ensures forall t :: t in roots[1..] ==>
              WellFormed(t) && roots[0].startLine <= t.startLine && roots[0].endLine <= t.endLine
  {
    assert roots[0] in roots;
    AscendingTail(roots);
  }

  lemma {:induction false} BlocksOrdered(cursor: int, roots: seq<Symbol>, r: Region)
    requires RootsIn(roots, r) && r.start <= cursor
    ensures Ordered(Blocks(cursor, roots, r.end), r)
    decreases |roots|
  {
    hide Ordered, StartsAfter, RootsIn, WellFormed, Within;
    if roots == [] {
      LastGapOrdered(cursor, r);
    } else {
      var s, tail := roots[0], roots[1..];
      RootsInTail(roots, r);
      LineAfter(s);
      StartInRegion(s, r);
      BlocksOrdered(s.endLine + 1, tail, r);
      BlocksStartAfter(s.endLine + 1, tail, r.end, s.startLine, s.endLine);
      var rest := Blocks(s.endLine + 1, tail, r.end);
      GapOrdered(cursor, s, rest, r);
      assert Blocks(cursor, roots, r.end) ==
             (if s.startLine > cursor then [Block(Region(cursor, s.startLine - 1), None)] else []) +
             [Block(RegionOf(s), Some(s))] + rest;
    }
  }

  lemma LastGapOrdered(cursor: int, r: Region)
    requires r.start <= cursor
    ensures Ordered(Blocks(cursor, [], r.end), r)
  {
    assert forall b :: b in Blocks(cursor, [], r.end) ==> b == Block(Region(cursor, r.end), None);
  }

  lemma LineAfter(s: Symbol)
    requires WellFormed(s)
    ensures s.startLine <= s.endLine + 1
  {
  }

  lemma StartInRegion(s: Symbol, r: Region)
    requires Within(RegionOf(s), r)
    ensures r.start <= s.startLine && s.endLine <= r.end
  {
  }

  // ----- tilings -----

  /** Consecutive pieces from line a to line b, each starting right after the one before. */
  ghost predicate Tiles(pieces: seq<Piece>, a: int, b: int) {
    if pieces == [] then a == b + 1
    else pieces[0].region.start == a <= pieces[0].region.end && Tiles(pieces[1..], pieces[0].region.end + 1, b)
  }

  lemma {:induction false} TilesConcat(p: seq<Piece>, q: seq<Piece>, a: int, m: int, b: int)
    requires Tiles(p, a, m) && Tiles(q, m + 1, b)
    ensures Tiles(p + q, a, b)
    decreases |p|
  {
    if p == [] {
      assert p + q == q;
    } else {
      TilesConcat(p[1..], q, p[0].region.end + 1, m, b);
      assert (p + q)[1..] == p[1..] + q;
    }
  }

  // ----- packing, for every input -----

  ghost predicate GoodCover(c: Config, pieces: seq<Piece>, r: Region) {
    Covers(pieces, r) && AllGood(c, pieces, r)
  }

  lemma AllGoodConcat(c: Config, a: seq<Piece>, b: seq<Piece>, r: Region)
    requires AllGood(c, a, r) && AllGood(c, b, r)
    ensures AllGood(c, a + b, r)
  {
  }

  /** The buffer holds a range that fits the budget. */
  ghost predicate BufOk(c: Config, buf: Option<Region>, r: Region) {
    buf.Some? ==> buf.value.start <= buf.value.end && Within(buf.value, r) &&
                  NonWsSize(c.lines, buf.value) <= c.maxNonWs
  }

  ghost predicate BufHolds(buf: Option<Region>, line: int) {
    buf.Some? && Holds(buf.value, line)
  }

  lemma FlushGood(c: Config, buf: Option<Region>, r: Region)
    requires BufOk(c, buf, r)
    ensures AllGood(c, Flush(buf), r)
    ensures forall line :: BufHolds(buf, line) ==> Covered(Flush(buf), line)
  {
    forall line | BufHolds(buf, line) ensures Covered(Flush(buf), line) {
      assert Flush(buf)[0] in Flush(buf);
    }
  }

  lemma WithinTrans(c: Config, pieces: seq<Piece>, inner: Region, outer: Region)
    requires AllGood(c, pieces, inner) && Within(inner, outer)
    ensures AllGood(c, pieces, outer)
  {
  }

  /** Packing a region covers all its lines, with pieces inside the region and the
      budget, whatever the symbols. */
  lemma {:induction false} PackGood(c: Config, r: Region, syms: seq<Symbol>)
    requires Prepared(syms)
    ensures GoodCover(c, Pack(c, r, syms), r)
    decreases |syms|, 2, 0
  {
    var roots := Roots(r, syms, syms);
    if roots == [] {
      HardSplitGood(c, r, GapChunk);
    } else {
      RootsAscend(r, syms);
      BlocksOrdered(r.start, roots, r);
      BlocksFromSymbols(r.start, roots, r.end, syms);
      var blocks := Blocks(r.start, roots, r.end);
      PackBlocksGood(c, blocks, syms, None, r);
      forall line | Holds(r, line) ensures Covered(Pack(c, r, syms), line) {
        BlocksCover(r.start, roots, r.end, line);
      }
    }
  }

  lemma {:induction false} PackOversizedGood(c: Config, b: Block, syms: seq<Symbol>, r: Region)
    requires Prepared(syms) && Within(b.region, r)
    requires b.sym.Some? ==> b.sym.value in syms
    ensures Covers(PackOversized(c, b, syms), b.region) && AllGood(c, PackOversized(c, b, syms), r)
    decreases |syms|, 0, 0
  {
    if b.sym.Some? {
      var children := Children(b.sym.value, syms);
      ChildrenPrepared(b.sym.value, syms);
      if children != [] {
        PackGood(c, b.region, children);
        WithinTrans(c, Pack(c, b.region, children), b.region, r);
      } else {
        HardSplitGood(c, b.region, SplitChunk);
        WithinTrans(c, HardSplit(c, b.region, SplitChunk), b.region, r);
      }
    } else {
      HardSplitGood(c, b.region, GapChunk);
      WithinTrans(c, HardSplit(c, b.region, GapChunk), b.region, r);
    }
  }

  ghost predicate BufBefore(buf: Option<Region>, blocks: seq<Block>) {
    buf.Some? ==> StartsAfter(blocks, buf.value.start, buf.value.end)
  }

  lemma HeadOk(blocks: seq<Block>, r: Region, buf: Option<Region>)
    requires Ordered(blocks, r) && blocks != [] && BufBefore(buf, blocks)
    ensures blocks[0].region.start <= blocks[0].region.end && Within(blocks[0].region, r)
    ensures Ordered(blocks[1..], r) && BufBefore(Some(blocks[0].region), blocks[1..])
    ensures BufBefore(Some(Merged(buf, blocks[0].region)), blocks[1..])
    ensures Merged(buf, blocks[0].region).start <= blocks[0].region.start
    ensures buf.Some? ==> buf.value.end <= blocks[0].region.end
  {
    assert blocks[0] in blocks;
    OrderedTail(blocks, r);
  }

  lemma BlockHoldsHead(blocks: seq<Block>, line: int)
    requires blocks != []
    ensures BlockHolds(blocks, line) <==> Holds(blocks[0].region, line) || BlockHolds(blocks[1..], line)
  {
    assert blocks[0] in blocks;
    if BlockHolds(blocks, line) {
      var b :| b in blocks && Holds(b.region, line);
      InSplit(blocks, b);
    }
    if BlockHolds(blocks[1..], line) {
      var b :| b in blocks[1..] && Holds(b.region, line);
      InSplit(blocks, b);
    }
  }

  lemma {:induction false} PackBlocksGood(c: Config, blocks: seq<Block>, syms: seq<Symbol>, buf: Option<Region>,
                                          r: Region)
    requires Prepared(syms) && FromSymbols(blocks, syms)
    requires Ordered(blocks, r) && BufOk(c, buf, r) && BufBefore(buf, blocks)
    ensures AllGood(c, PackBlocks(c, blocks, syms, buf), r)
    ensures forall line :: BufHolds(buf, line) || BlockHolds(blocks, line) ==>
              Covered(PackBlocks(c, blocks, syms, buf), line)
    decreases |syms|, 1, |blocks|
  {
    hide Ordered, AllGood, BufBefore, Covered, Prepared;
    FlushGood(c, buf, r);
    if blocks == [] {
    } else {
      var b, rest := blocks[0], blocks[1..];
      assert b in blocks;
      HeadOk(blocks, r, buf);
      TailFromSymbols(blocks, syms);
      var all := PackBlocks(c, blocks, syms, buf);
      if Oversized(c, b.region) {
        NoBuf(rest);
        PackOversizedGood(c, b, syms, r);
        PackBlocksGood(c, rest, syms, None, r);
        var mid, tail := PackOversized(c, b, syms), PackBlocks(c, rest, syms, None);
        AllGoodConcat(c, Flush(buf), mid, r);
        AllGoodConcat(c, Flush(buf) + mid, tail, r);
        forall line | BufHolds(buf, line) || BlockHolds(blocks, line) ensures Covered(all, line) {
          BlockHoldsHead(blocks, line);
          CoveredConcat(Flush(buf), mid, line);
          CoveredConcat(Flush(buf) + mid, tail, line);
        }
      } else if buf.Some? && NonWsSize(c.lines, Region(buf.value.start, b.region.end)) > c.maxNonWs {
        PackBlocksGood(c, rest, syms, Some(b.region), r);
        var tail := PackBlocks(c, rest, syms, Some(b.region));
        AllGoodConcat(c, Flush(buf), tail, r);
        forall line | BufHolds(buf, line) || BlockHolds(blocks, line) ensures Covered(all, line) {
          BlockHoldsHead(blocks, line);
          CoveredConcat(Flush(buf), tail, line);
        }
      } else {
        var merged := Some(Merged(buf, b.region));
        PackBlocksGood(c, rest, syms, merged, r);
        forall line | BufHolds(buf, line) || BlockHolds(blocks, line) ensures Covered(all, line) {
          BlockHoldsHead(blocks, line);
          assert BufHolds(buf, line) || Holds(b.region, line) ==> BufHolds(merged, line);
        }
      }
    }
  }

  lemma NoBuf(blocks: seq<Block>)
    ensures BufBefore(None, blocks)
  {
  }

  // ----- laminar symbols: exactly once -----

  ghost predicate Disjoint(a: Region, b: Region) {
    a.end < b.start || b.end < a.start
  }

  /** Ranges are pairwise line-disjoint or strictly nested. */
  ghost predicate Laminar(syms: seq<Symbol>) {
    forall a, b :: a in syms && b in syms && a != b ==>
      Disjoint(RegionOf(a), RegionOf(b)) || StrictlyContains(a, b) || StrictlyContains(b, a)
  }

  /** Each root starts after the previous one ends. */
  ghost predicate Apart(roots: seq<Symbol>) {
    forall i, j :: 0 <= i < j < |roots| ==> roots[i].endLine < roots[j].startLine
  }

  lemma RootsApart(r: Region, syms: seq<Symbol>)
    requires Prepared(syms) && Laminar(syms)
    ensures Apart(Roots(r, syms, syms))
  {
    RootsSpec(r, syms, syms);
    RootsAscend(r, syms);
    var roots := Roots(r, syms, syms);
    forall i, j | 0 <= i < j < |roots| ensures roots[i].endLine < roots[j].startLine {
      var a, b := roots[i], roots[j];
      assert a in roots && b in roots && a != b;
      assert !StrictlyContains(a, b) && !StrictlyContains(b, a);
    }
  }

  /** Consecutive blocks from line a to line b. */
  ghost predicate BlocksTile(blocks: seq<Block>, a: int, b: int) {
    if blocks == [] then a == b + 1
    else blocks[0].region.start == a <= blocks[0].region.end &&
         BlocksTile(blocks[1..], blocks[0].region.end + 1, b)
  }

  ghost predicate ApartIn(roots: seq<Symbol>, cursor: int, end: int) {
    Apart(roots) && forall s :: s in roots ==> WellFormed(s) && cursor <= s.startLine && s.endLine <= end
  }

  lemma ApartTail(roots: seq<Symbol>, cursor: int, end: int)
    requires ApartIn(roots, cursor, end) && roots != []
    ensures ApartIn(roots[1..], roots[0].endLine + 1, end)
    ensures cursor <= roots[0].startLine <= roots[0].endLine <= end
  {
    assert roots[0] in roots;
    forall t | t in roots[1..] ensures t in roots && roots[0].endLine < t.startLine {
      var j :| 0 <= j < |roots[1..]| && roots[1..][j] == t;
      assert roots[j + 1] == t;
    }
  }

  lemma TileCons(b: Block, rest: seq<Block>, end: int)
    requires b.region.start <= b.region.end && BlocksTile(rest, b.region.end + 1, end)
    ensures BlocksTile([b] + rest, b.region.start, end)
  {
    assert ([b] + rest)[1..] == rest;
  }

  lemma {:induction false} ApartBlocksTile(cursor: int, roots: seq<Symbol>, end: int)
    requires ApartIn(roots, cursor, end) && cursor <= end + 1
    ensures BlocksTile(Blocks(cursor, roots, end), cursor, end)
    decreases |roots|
  {
    if roots == [] {
      LastGapTiles(cursor, end);
    } else {
      hide ApartIn, BlocksTile;
      var s, tail := roots[0], roots[1..];
      ApartTail(roots, cursor, end);
      ApartBlocksTile(s.endLine + 1, tail, end);
      var rest := Blocks(s.endLine + 1, tail, end);
      var b := Block(RegionOf(s), Some(s));
      TileCons(b, rest, end);
      if s.startLine > cursor {
        var gap := Block(Region(cursor, s.startLine - 1), None);
        TileCons(gap, [b] + rest, end);
        assert Blocks(cursor, roots, end) == [gap] + ([b] + rest);
      } else {
        assert Blocks(cursor, roots, end) == [b] + rest;
      }
    }
  }

  lemma LastGapTiles(cursor: int, end: int)
    requires cursor <= end + 1
    ensures BlocksTile(Blocks(cursor, [], end), cursor, end)
  {
  }

  lemma ChildrenLaminar(sym: Symbol, syms: seq<Symbol>)
    requires Laminar(syms)
    ensures Laminar(Children(sym, syms))
  {
  }

  ghost function BufStart(buf: Option<Region>, next: int): int {
    if buf.Some? then buf.value.start else next
  }

  ghost predicate BufTouches(buf: Option<Region>, a: int) {
    buf.Some? ==> buf.value.start <= buf.value.end && buf.value.end + 1 == a
  }

  lemma FlushTiles(buf: Option<Region>, a: int)
    requires BufTouches(buf, a)
    ensures Tiles(Flush(buf), BufStart(buf, a), a - 1)
  {
  }

  lemma {:induction false} PackTiles(c: Config, r: Region, syms: seq<Symbol>)
    requires Prepared(syms) && Laminar(syms) && r.start <= r.end
    ensures Tiles(Pack(c, r, syms), r.start, r.end)
    decreases |syms|, 2, 0
  {
    var roots := Roots(r, syms, syms);
    if roots == [] {
      HardSplitGood(c, r, GapChunk);
    } else {
      RootsAscend(r, syms);
      RootsApart(r, syms);
      BlocksOrdered(r.start, roots, r);
      ApartBlocksTile(r.start, roots, r.end);
      BlocksFromSymbols(r.start, roots, r.end, syms);
      PackBlocksTiles(c, Blocks(r.start, roots, r.end), syms, None, r.start, r.end);
    }
  }

  lemma {:induction false} PackOversizedTiles(c: Config, b: Block, syms: seq<Symbol>)
    requires Prepared(syms) && Laminar(syms) && b.region.start <= b.region.end
    requires b.sym.Some? ==> b.sym.value in syms
    ensures Tiles(PackOversized(c, b, syms), b.region.start, b.region.end)
    decreases |syms|, 0, 0
  {
    if b.sym.Some? {
      var children := Children(b.sym.value, syms);
      ChildrenPrepared(b.sym.value, syms);
      ChildrenLaminar(b.sym.value, syms);
      if children != [] {
        PackTiles(c, b.region, children);
      } else {
        HardSplitGood(c, b.region, SplitChunk);
      }
    } else {
      HardSplitGood(c, b.region, GapChunk);
    }
  }

  lemma {:induction false} PackBlocksTiles(c: Config, blocks: seq<Block>, syms: seq<Symbol>, buf: Option<Region>,
                                           a: int, e: int)
    requires Prepared(syms) && Laminar(syms) && FromSymbols(blocks, syms)
    requires BlocksTile(blocks, a, e) && BufTouches(buf, a)
    ensures Tiles(PackBlocks(c, blocks, syms, buf), BufStart(buf, a), e)
    decreases |syms|, 1, |blocks|
  {
    hide Prepared, Laminar, Tiles, FromSymbols;
    FlushTiles(buf, a);
    if blocks != [] {
      var b, rest := blocks[0], blocks[1..];
      assert b in blocks;
      FromHead(blocks, syms);
      if Oversized(c, b.region) {
        PackOversizedTiles(c, b, syms);
        PackBlocksTiles(c, rest, syms, None, b.region.end + 1, e);
        TilesConcat(Flush(buf), PackOversized(c, b, syms), BufStart(buf, a), a - 1, b.region.end);
        TilesConcat(Flush(buf) + PackOversized(c, b, syms), PackBlocks(c, rest, syms, None),
                    BufStart(buf, a), b.region.end, e);
      } else if buf.Some? && NonWsSize(c.lines, Region(buf.value.start, b.region.end)) > c.maxNonWs {
        PackBlocksTiles(c, rest, syms, Some(b.region), b.region.end + 1, e);
        TilesConcat(Flush(buf), PackBlocks(c, rest, syms, Some(b.region)), BufStart(buf, a), a - 1, e);
      } else {
        PackBlocksTiles(c, rest, syms, Some(Merged(buf, b.region)), b.region.end + 1, e);
      }
    }
  }

  lemma FromHead(blocks: seq<Block>, syms: seq<Symbol>)
    requires FromSymbols(blocks, syms) && blocks != []
    ensures blocks[0].sym.Some? ==> blocks[0].sym.value in syms
    ensures FromSymbols(blocks[1..], syms)
  {
    assert blocks[0] in blocks;
    TailFromSymbols(blocks, syms);
  }
}
