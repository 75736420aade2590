/** Line diffs (packages/code/src/autofix/DiffTracker.ts). */
module DiffTrackers {
  import opened Common
  import opened Subsequences

  type Line = string

  /** One reported change. `line` is 1-based: a position in the new text for an
      addition, in the old text otherwise. */
  datatype LineDiff =
    | Added(line: nat, after: Line)
    | Removed(line: nat, before: Line)
    | Changed(line: nat, before: Line, after: Line)

  // ----- what a list of changes means -----

  /** Position reached in the source text and text produced so far. */
  datatype Cursor = Cursor(pos: nat, out: seq<Line>)

  /** Copy n lines, then drop `drop` source lines and produce `lines`. */
  function Emit(source: seq<Line>, c: Cursor, n: int, drop: seq<Line>, lines: seq<Line>): Option<Cursor> {
    if n < 0 || c.pos + n + |drop| > |source| || source[c.pos + n..c.pos + n + |drop|] != drop then None
    else Some(Cursor(c.pos + n + |drop|, c.out + source[c.pos..c.pos + n] + lines))
  }

  function Forward(before: seq<Line>, c: Cursor, d: LineDiff): Option<Cursor> {
    match d
    case Added(l, y) => Emit(before, c, l - 1 - |c.out|, [], [y])
    case Removed(l, x) => Emit(before, c, l - 1 - c.pos, [x], [])
    case Changed(l, x, y) => Emit(before, c, l - 1 - c.pos, [x], [y])
  }

  function Backward(after: seq<Line>, c: Cursor, d: LineDiff): Option<Cursor> {
    match d
    case Added(l, y) => Emit(after, c, l - 1 - c.pos, [y], [])
    case Removed(l, x) => Emit(after, c, l - 1 - |c.out|, [], [x])
    case Changed(l, x, y) => Emit(after, c, l - 1 - |c.out|, [y], [x])
  }

  function RunForward(before: seq<Line>, changes: seq<LineDiff>): Option<Cursor> {
    if changes == [] then Some(Cursor(0, []))
    else
      match RunForward(before, Front(changes))
      case None => None
      case Some(c) => Forward(before, c, changes[|changes| - 1])
  }

  function RunBackward(after: seq<Line>, changes: seq<LineDiff>): Option<Cursor> {
    if changes == [] then Some(Cursor(0, []))
    else
      match RunBackward(after, Front(changes))
      case None => None
      case Some(c) => Backward(after, c, changes[|changes| - 1])
  }

  function Rest(source: seq<Line>, c: Option<Cursor>): Option<seq<Line>> {
    if c.None? || c.value.pos > |source| then None else Some(c.value.out + source[c.value.pos..])
  }

  /** Replay the changes on the old text, copying every line they do not mention. */
  function Replay(before: seq<Line>, changes: seq<LineDiff>): Option<seq<Line>> {
    Rest(before, RunForward(before, changes))
  }

  /** Undo the changes on the new text, copying every line they do not mention. */
  function Undo(after: seq<Line>, changes: seq<LineDiff>): Option<seq<Line>> {
    Rest(after, RunBackward(after, changes))
  }

  function Additions(changes: seq<LineDiff>): nat {
    if changes == [] then 0
    else Additions(Front(changes)) + (if changes[|changes| - 1].Added? then 1 else 0)
  }

  function Deletions(changes: seq<LineDiff>): nat {
    if changes == [] then 0
    else Deletions(Front(changes)) + (if changes[|changes| - 1].Removed? then 1 else 0)
  }

  function Edits(changes: seq<LineDiff>): nat {
    if changes == [] then 0
    else Edits(Front(changes)) + (if changes[|changes| - 1].Changed? then 1 else 0)
  }

  /** Lines of the old text that the changes leave alone. */
  function Unchanged(before: seq<Line>, changes: seq<LineDiff>): int {
    |before| - Deletions(changes) - Edits(changes)
  }

  lemma CountAppend(changes: seq<LineDiff>, d: LineDiff)
    ensures Additions(changes + [d]) == Additions(changes) + (if d.Added? then 1 else 0)
    ensures Deletions(changes + [d]) == Deletions(changes) + (if d.Removed? then 1 else 0)
    ensures Edits(changes + [d]) == Edits(changes) + (if d.Changed? then 1 else 0)
  {
    assert Front(changes + [d]) == changes;
  }

  /** An emission extends the copied lines by n. */
  lemma EmitKeeps(source: seq<Line>, c: Cursor, n: int, drop: seq<Line>, lines: seq<Line>, kept: seq<Line>)
    returns (kept': seq<Line>)
    requires c.pos <= |source| && IsSubseq(kept, source[..c.pos]) && IsSubseq(kept, c.out)
    requires Emit(source, c, n, drop, lines).Some?
    ensures var c' := Emit(source, c, n, drop, lines).value;
            && c'.pos == c.pos + n + |drop| <= |source|
            && IsSubseq(kept', source[..c'.pos]) && IsSubseq(kept', c'.out)
            && |kept'| == |kept| + n
  {
    hide IsSubseq;
    var copied := source[c.pos..c.pos + n];
    var c' := Emit(source, c, n, drop, lines).value;
    kept' := kept + copied + [];
    Reflexive(copied);
    Empty(drop);
    Empty(lines);
    Concat(kept, source[..c.pos], copied, copied);
    Concat(kept, c.out, copied, copied);
    Concat(kept + copied, source[..c.pos] + copied, [], drop);
    Concat(kept + copied, c.out + copied, [], lines);
    assert source[..c.pos + n] == source[..c.pos] + copied;
    assert source[..c'.pos] == source[..c.pos + n] + drop;
  }

  /** The lines a replay copies form a common subsequence of source and output. */
  lemma {:induction false} CopiedIsCommon(before: seq<Line>, changes: seq<LineDiff>) returns (kept: seq<Line>)
    requires RunForward(before, changes).Some?
    ensures var c := RunForward(before, changes).value;
            && c.pos <= |before|
            && IsSubseq(kept, before[..c.pos]) && IsSubseq(kept, c.out)
            && |kept| == c.pos - Deletions(changes) - Edits(changes)
  {
    hide IsSubseq, Emit;
    if changes == [] {
      kept := [];
      Empty(before[..0]);
      Empty<Line>([]);
    } else {
      var c := RunForward(before, Front(changes)).value;
      kept := CopiedIsCommon(before, Front(changes));
      match changes[|changes| - 1]
      case Added(l, y) => kept := EmitKeeps(before, c, l - 1 - |c.out|, [], [y], kept);
      case Removed(l, x) => kept := EmitKeeps(before, c, l - 1 - c.pos, [x], [], kept);
      case Changed(l, x, y) => kept := EmitKeeps(before, c, l - 1 - c.pos, [x], [y], kept);
    }
  }

  /** No script that turns one text into the other leaves more lines alone than the
      longest common subsequence has. */
  lemma ScriptsKeepAtMostLcs(before: seq<Line>, after: seq<Line>, changes: seq<LineDiff>)
    requires Replay(before, changes) == Some(after)
    ensures Unchanged(before, changes) <= Lcs(before, after)
  {
    var kept := CopiedIsCommon(before, changes);
    var c := RunForward(before, changes).value;
    var tail := before[c.pos..];
    Reflexive(tail);
    Concat(kept, before[..c.pos], tail, tail);
    Concat(kept, c.out, tail, tail);
    assert before == before[..c.pos] + tail;
    LcsIsUpperBound(before, after, kept + tail);
  }

  // ----- the longest common subsequence -----

  /** Cell (i, j) holds the value for the first i and the first j lines. */
  ghost predicate Tabulates(dp: array2<int>, a: seq<Line>, b: seq<Line>, rows: nat)
    reads dp
  {
    && dp.Length0 == |a| + 1 && dp.Length1 == |b| + 1
    && forall i, j :: 0 <= i < rows && i <= |a| && 0 <= j <= |b| ==> dp[i, j] == Lcs(a[..i], b[..j])
  }

  lemma LcsZero(a: seq<Line>, b: seq<Line>)
    ensures forall j :: 0 <= j <= |b| ==> Lcs(a[..0], b[..j]) == 0
    ensures forall i :: 0 <= i <= |a| ==> Lcs(a[..i], b[..0]) == 0
  {
  }

  method FillTable(a: seq<Line>, b: seq<Line>) returns (dp: array2<int>)
    ensures fresh(dp) && Tabulates(dp, a, b, |a| + 1)
  {
    hide Lcs;
    LcsZero(a, b);
    var m, n := |a|, |b|;
    dp := new int[m + 1, n + 1]((i, j) => 0);
    for i := 1 to m + 1
      invariant Tabulates(dp, a, b, i)
      invariant forall i' :: 0 <= i' <= m ==> dp[i', 0] == 0
    {
      for j := 1 to n + 1
        invariant Tabulates(dp, a, b, i)
        invariant forall i' :: 0 <= i' <= m ==> dp[i', 0] == 0
        invariant forall j' :: 0 <= j' < j ==> dp[i, j'] == Lcs(a[..i], b[..j'])
      {
        LcsStep(a, b, i, j);
        if a[i - 1] == b[j - 1] {
          dp[i, j] := dp[i - 1, j - 1] + 1;
        } else {
          dp[i, j] := if dp[i - 1, j] >= dp[i, j - 1] then dp[i - 1, j] else dp[i, j - 1];
        }
      }
    }
  }

  /** What the backtrace holds at (i, j): a common subsequence of the two tails that
      still leads to a longest one. */
  ghost predicate TraceInv(a: seq<Line>, b: seq<Line>, i: nat, j: nat, lcs: seq<Line>) {
    && i <= |a| && j <= |b|
    && IsSubseq(lcs, a[i..]) && IsSubseq(lcs, b[j..])
    && |lcs| + Lcs(a[..i], b[..j]) == Lcs(a, b)
  }

  lemma TraceStart(a: seq<Line>, b: seq<Line>)
    ensures TraceInv(a, b, |a|, |b|, [])
  {
    assert a[..|a|] == a && b[..|b|] == b;
  }

  lemma TraceStep(a: seq<Line>, b: seq<Line>, i: nat, j: nat, lcs: seq<Line>)
    requires TraceInv(a, b, i, j, lcs) && 0 < i && 0 < j
    ensures a[i - 1] == b[j - 1] ==> TraceInv(a, b, i - 1, j - 1, [a[i - 1]] + lcs)
    ensures a[i - 1] != b[j - 1] && Lcs(a[..i - 1], b[..j]) > Lcs(a[..i], b[..j - 1]) ==>
              TraceInv(a, b, i - 1, j, lcs)
    ensures a[i - 1] != b[j - 1] && Lcs(a[..i - 1], b[..j]) <= Lcs(a[..i], b[..j - 1]) ==>
              TraceInv(a, b, i, j - 1, lcs)
  {
    LcsStep(a, b, i, j);
    assert a[i - 1..][1..] == a[i..] && b[j - 1..][1..] == b[j..];
    assert ([a[i - 1]] + lcs)[1..] == lcs;
    Widen(lcs, a[i - 1..]);
    Widen(lcs, b[j - 1..]);
  }

  lemma SubseqOfTail(lcs: seq<Line>, s: seq<Line>, i: nat)
    requires i <= |s| && IsSubseq(lcs, s[i..])
    ensures IsSubseq(lcs, s)
  {
    assert s == s[..i] + s[i..];
    Empty(s[..i]);
    Concat([], s[..i], lcs, s[i..]);
    assert [] + lcs == lcs;
  }

  lemma TraceEnd(a: seq<Line>, b: seq<Line>, i: nat, j: nat, lcs: seq<Line>)
    requires TraceInv(a, b, i, j, lcs) && (i == 0 || j == 0)
    ensures IsCommon(lcs, a, b) && |lcs| == Lcs(a, b)
  {
    hide IsSubseq;
    SubseqOfTail(lcs, a, i);
    SubseqOfTail(lcs, b, j);
  }

  lemma LcsIsLongest(a: seq<Line>, b: seq<Line>)
    ensures forall c :: IsCommon(c, a, b) ==> |c| <= Lcs(a, b)
  {
    hide Lcs, IsSubseq;
    forall c | IsCommon(c, a, b) ensures |c| <= Lcs(a, b) {
      LcsIsUpperBound(a, b, c);
    }
  }

  method LongestCommonSubsequence(a: seq<Line>, b: seq<Line>) returns (lcs: seq<Line>)
    ensures IsCommon(lcs, a, b)
    ensures |lcs| == Lcs(a, b)
    ensures forall c :: IsCommon(c, a, b) ==> |c| <= |lcs|
  {
    hide TraceInv, Lcs, IsSubseq;
    var dp := FillTable(a, b);
    lcs := [];
    var i, j := |a|, |b|;
    TraceStart(a, b);
    while i > 0 && j > 0
      invariant 0 <= i <= |a| && 0 <= j <= |b| && TraceInv(a, b, i, j, lcs)
      invariant Tabulates(dp, a, b, |a| + 1)
    {
      TraceStep(a, b, i, j, lcs);
      assert dp[i - 1, j] == Lcs(a[..i - 1], b[..j]) && dp[i, j - 1] == Lcs(a[..i], b[..j - 1]);
      if a[i - 1] == b[j - 1] {
        lcs := [a[i - 1]] + lcs;
        i, j := i - 1, j - 1;
      } else if dp[i - 1, j] > dp[i, j - 1] {
        i := i - 1;
      } else {
        j := j - 1;
      }
    }
    TraceEnd(a, b, i, j, lcs);
    LcsIsLongest(a, b);
  }

  /** The recurrence, on prefixes of the two texts. */
  lemma LcsStep(a: seq<Line>, b: seq<Line>, i: nat, j: nat)
    requires 0 < i <= |a| && 0 < j <= |b|
    ensures Lcs(a[..i], b[..0]) == 0 && Lcs(a[..0], b[..j]) == 0
    ensures a[i - 1] == b[j - 1] ==> Lcs(a[..i], b[..j]) == Lcs(a[..i - 1], b[..j - 1]) + 1
    ensures a[i - 1] != b[j - 1] ==>
              Lcs(a[..i], b[..j]) == (if Lcs(a[..i - 1], b[..j]) > Lcs(a[..i], b[..j - 1])
                                      then Lcs(a[..i - 1], b[..j]) else Lcs(a[..i], b[..j - 1]))
  {
    assert a[..i][..i - 1] == a[..i - 1] && b[..j][..j - 1] == b[..j - 1];
  }

  // ----- the greedy walk -----

  /** The walk stands at (bi, ai) with k common lines passed. */
  ghost predicate WalkInv(before: seq<Line>, after: seq<Line>, lcs: seq<Line>, bi: nat, ai: nat, k: nat) {
    && bi <= |before| && ai <= |after| && k <= |lcs|
    && IsSubseq(lcs[..k], before[..bi]) && IsSubseq(lcs[..k], after[..ai])
    && IsSubseq(lcs[k..], before[bi..]) && IsSubseq(lcs[k..], after[ai..])
  }

  /** What the changes so far do when replayed, in either direction, and how many they are. */
  ghost predicate ScriptInv(before: seq<Line>, after: seq<Line>, changes: seq<LineDiff>, bi: nat, ai: nat, k: nat) {
    && bi <= |before| && ai <= |after|
    && Reaches(before, RunForward(before, changes), bi, after[..ai])
    && Reaches(after, RunBackward(after, changes), ai, before[..bi])
    && bi == k + Deletions(changes) + Edits(changes)
    && ai == k + Additions(changes) + Edits(changes)
    && forall d :: d in changes && d.Changed? ==> d.before != d.after
  }

  /** Copying up to position `pos` completes the output. */
  ghost predicate Reaches(source: seq<Line>, c: Option<Cursor>, pos: nat, out: seq<Line>) {
    && c.Some? && c.value.pos <= pos <= |source|
    && c.value.out + source[c.value.pos..pos] == out
  }

  /** Passing a common line copies it in both directions. */
  lemma CopyStep(source: seq<Line>, c: Option<Cursor>, pos: nat, target: seq<Line>, t: nat)
    requires t < |target| && pos < |source| && Reaches(source, c, pos, target[..t]) && source[pos] == target[t]
    ensures Reaches(source, c, pos + 1, target[..t + 1])
  {
    assert source[c.value.pos..pos + 1] == source[c.value.pos..pos] + [source[pos]];
    assert target[..t + 1] == target[..t] + [target[t]];
  }

  /** An emitted change takes both replays to the new position. */
  lemma EmitStep(source: seq<Line>, c: Cursor, pos: nat, target: seq<Line>, t: nat, drop: nat, make: nat)
    requires t <= |target| && Reaches(source, Some(c), pos, target[..t])
    requires pos + drop <= |source| && t + make <= |target|
    ensures |c.out| + (pos - c.pos) == t
    ensures Reaches(source, Emit(source, c, pos - c.pos, source[pos..pos + drop], target[t..t + make]),
                    pos + drop, target[..t + make])
  {
    assert target[..t + make] == target[..t] + target[t..t + make];
  }

  /** `d` reports what the walk sees at (bi, ai). */
  ghost predicate Reports(before: seq<Line>, after: seq<Line>, bi: nat, ai: nat, d: LineDiff) {
    match d
    case Added(l, y) => ai < |after| && l == ai + 1 && y == after[ai]
    case Removed(l, x) => bi < |before| && l == bi + 1 && x == before[bi]
    case Changed(l, x, y) =>
      bi < |before| && ai < |after| && l == bi + 1 && x == before[bi] && y == after[ai] && x != y
  }

  ghost function NextBefore(bi: nat, d: LineDiff): nat {
    if d.Added? then bi else bi + 1
  }

  ghost function NextAfter(ai: nat, d: LineDiff): nat {
    if d.Removed? then ai else ai + 1
  }

  /** Both replays emit exactly the slices of the texts that the change covers. */
  lemma ChangeIsEmit(before: seq<Line>, after: seq<Line>, c: Cursor, bi: nat, ai: nat, d: LineDiff)
    requires bi <= |before| && ai <= |after| && Reports(before, after, bi, ai, d)
    ensures NextBefore(bi, d) <= |before| && NextAfter(ai, d) <= |after|
    ensures |c.out| + bi - c.pos == ai ==>
              Forward(before, c, d) ==
              Emit(before, c, bi - c.pos, before[bi..NextBefore(bi, d)], after[ai..NextAfter(ai, d)])
    ensures |c.out| + ai - c.pos == bi ==>
              Backward(after, c, d) ==
              Emit(after, c, ai - c.pos, after[ai..NextAfter(ai, d)], before[bi..NextBefore(bi, d)])
  {
    hide Emit;
    match d
    case Added(_, y) => assert before[bi..bi] == [] && after[ai..ai + 1] == [y];
    case Removed(_, x) => assert before[bi..bi + 1] == [x] && after[ai..ai] == [];
    case Changed(_, x, y) => assert before[bi..bi + 1] == [x] && after[ai..ai + 1] == [y];
  }

  lemma ForwardStep(before: seq<Line>, after: seq<Line>, changes: seq<LineDiff>, bi: nat, ai: nat, d: LineDiff)
    requires bi <= |before| && ai <= |after| && Reports(before, after, bi, ai, d)
    requires Reaches(before, RunForward(before, changes), bi, after[..ai])
    ensures NextBefore(bi, d) <= |before| && NextAfter(ai, d) <= |after|
    ensures Reaches(before, RunForward(before, changes + [d]), NextBefore(bi, d), after[..NextAfter(ai, d)])
  {
    hide Emit, Forward;
    assert Front(changes + [d]) == changes;
    var c := RunForward(before, changes).value;
    ChangeIsEmit(before, after, c, bi, ai, d);
    EmitStep(before, c, bi, after, ai, NextBefore(bi, d) - bi, NextAfter(ai, d) - ai);
  }

  lemma BackwardStep(before: seq<Line>, after: seq<Line>, changes: seq<LineDiff>, bi: nat, ai: nat, d: LineDiff)
    requires bi <= |before| && ai <= |after| && Reports(before, after, bi, ai, d)
    requires Reaches(after, RunBackward(after, changes), ai, before[..bi])
    ensures NextBefore(bi, d) <= |before| && NextAfter(ai, d) <= |after|
    ensures Reaches(after, RunBackward(after, changes + [d]), NextAfter(ai, d), before[..NextBefore(bi, d)])
  {
    hide Emit, Backward;
    assert Front(changes + [d]) == changes;
    var c := RunBackward(after, changes).value;
    ChangeIsEmit(before, after, c, bi, ai, d);
    EmitStep(after, c, ai, before, bi, NextAfter(ai, d) - ai, NextBefore(bi, d) - bi);
  }

  lemma ScriptStep(before: seq<Line>, after: seq<Line>, changes: seq<LineDiff>, bi: nat, ai: nat, k: nat, d: LineDiff)
    requires ScriptInv(before, after, changes, bi, ai, k) && Reports(before, after, bi, ai, d)
    ensures ScriptInv(before, after, changes + [d], NextBefore(bi, d), NextAfter(ai, d), k)
  {
    hide RunForward, RunBackward, Reaches;
    CountAppend(changes, d);
    ForwardStep(before, after, changes, bi, ai, d);
    BackwardStep(before, after, changes, bi, ai, d);
  }

  lemma ScriptCopy(before: seq<Line>, after: seq<Line>, changes: seq<LineDiff>, bi: nat, ai: nat, k: nat)
    requires ScriptInv(before, after, changes, bi, ai, k)
    requires bi < |before| && ai < |after| && before[bi] == after[ai]
    ensures ScriptInv(before, after, changes, bi + 1, ai + 1, k + 1)
  {
    hide RunForward, RunBackward, Reaches;
    CopyStep(before, RunForward(before, changes), bi, after, ai);
    CopyStep(after, RunBackward(after, changes), ai, before, bi);
  }

  lemma WalkStart(before: seq<Line>, after: seq<Line>, lcs: seq<Line>)
    requires IsCommon(lcs, before, after)
    ensures WalkInv(before, after, lcs, 0, 0, 0) && ScriptInv(before, after, [], 0, 0, 0)
  {
    assert lcs[..0] == [] && lcs[0..] == lcs && before[0..] == before && after[0..] == after;
  }

  lemma WalkEnd(before: seq<Line>, after: seq<Line>, lcs: seq<Line>, changes: seq<LineDiff>, k: nat)
    requires WalkInv(before, after, lcs, |before|, |after|, k)
    requires ScriptInv(before, after, changes, |before|, |after|, k)
    ensures Replay(before, changes) == Some(after) && Undo(after, changes) == Some(before)
    ensures forall d :: d in changes && d.Changed? ==> d.before != d.after
    ensures Unchanged(before, changes) == |lcs|
    ensures Additions(changes) - Deletions(changes) == |after| - |before|
  {
    hide RunForward, RunBackward;
    assert after[..|after|] == after && before[..|before|] == before;
  }

  /** Two equal lines that the walk pairs as a change would make a longer common subsequence. */
  lemma PairedLinesDiffer(before: seq<Line>, after: seq<Line>, lcs: seq<Line>, bi: nat, ai: nat, k: nat)
    requires WalkInv(before, after, lcs, bi, ai, k) && bi < |before| && ai < |after|
    requires k == |lcs| || (before[bi] != lcs[k] && after[ai] != lcs[k])
    requires |lcs| == Lcs(before, after)
    ensures before[bi] != after[ai]
  {
    hide IsSubseq, Lcs;
    SkipBefore(before, after, lcs, bi, ai, k);
    SkipAfter(before, after, lcs, bi, ai, k);
    if before[bi] == after[ai] {
      var x := before[bi];
      Extend(lcs[..k], before[..bi], x);
      Extend(lcs[..k], after[..ai], x);
      Concat(lcs[..k] + [x], before[..bi] + [x], lcs[k..], before[bi + 1..]);
      Concat(lcs[..k] + [x], after[..ai] + [x], lcs[k..], after[ai + 1..]);
      assert before == before[..bi] + [x] + before[bi + 1..];
      assert after == after[..ai] + [x] + after[ai + 1..];
      LcsIsUpperBound(before, after, lcs[..k] + [x] + lcs[k..]);
    }
  }

  lemma SkipBefore(before: seq<Line>, after: seq<Line>, lcs: seq<Line>, bi: nat, ai: nat, k: nat)
    requires WalkInv(before, after, lcs, bi, ai, k) && bi < |before|
    requires k == |lcs| || before[bi] != lcs[k]
    ensures WalkInv(before, after, lcs, bi + 1, ai, k)
  {
    assert before[bi..][1..] == before[bi + 1..];
    assert before[..bi + 1] == before[..bi] + [before[bi]];
    Extend(lcs[..k], before[..bi], before[bi]);
  }

  lemma SkipAfter(before: seq<Line>, after: seq<Line>, lcs: seq<Line>, bi: nat, ai: nat, k: nat)
    requires WalkInv(before, after, lcs, bi, ai, k) && ai < |after|
    requires k == |lcs| || after[ai] != lcs[k]
    ensures WalkInv(before, after, lcs, bi, ai + 1, k)
  {
    assert after[ai..][1..] == after[ai + 1..];
    assert after[..ai + 1] == after[..ai] + [after[ai]];
    Extend(lcs[..k], after[..ai], after[ai]);
  }

  lemma PassCommon(before: seq<Line>, after: seq<Line>, lcs: seq<Line>, bi: nat, ai: nat, k: nat)
    requires WalkInv(before, after, lcs, bi, ai, k) && bi < |before| && ai < |after| && k < |lcs|
    requires before[bi] == lcs[k] == after[ai]
    ensures WalkInv(before, after, lcs, bi + 1, ai + 1, k + 1)
  {
    DropHead(lcs[k..], before[bi..]);
    DropHead(lcs[k..], after[ai..]);
    assert lcs[k..][1..] == lcs[k + 1..] && lcs[..k + 1] == lcs[..k] + [lcs[k]];
    assert before[bi..][1..] == before[bi + 1..] && before[..bi + 1] == before[..bi] + [lcs[k]];
    assert after[ai..][1..] == after[ai + 1..] && after[..ai + 1] == after[..ai] + [lcs[k]];
    Extend(lcs[..k], before[..bi], lcs[k]);
    Extend(lcs[..k], after[..ai], lcs[k]);
  }

  // ----- runs of changes with no kept line between them -----

  /** How far into the old and the new text a list of changes has come. */
  ghost function Place(changes: seq<LineDiff>): (int, int) {
    if changes == [] then (0, 0)
    else
      var (b, a) := Place(Front(changes));
      match Last(changes)
      case Added(l, _) => (b + (l - 1 - a), l)
      case Removed(l, _) => (l, a + (l - 1 - b))
      case Changed(l, _, _) => (l, a + (l - 1 - b) + 1)
  }

  /** No line is copied just before the i-th change. */
  ghost predicate Joined(changes: seq<LineDiff>, i: nat)
    requires i < |changes|
  {
    var (b, a) := Place(changes[..i]);
    changes[i].line - 1 == if changes[i].Added? then a else b
  }

  /** The kinds that may follow each other when no line is copied in between. */
  ghost predicate MayFollow(d: LineDiff, e: LineDiff) {
    d.Changed? || (d.Added? && e.Added?) || (d.Removed? && e.Removed?)
  }

  ghost predicate Paired(changes: seq<LineDiff>) {
    forall i {:trigger Joined(changes, i)} :: 0 < i < |changes| && Joined(changes, i) ==>
      MayFollow(changes[i - 1], changes[i])
  }

  ghost predicate OneRun(changes: seq<LineDiff>, i: nat, j: nat) {
    i <= j < |changes| && forall k {:trigger Joined(changes, k)} :: i < k <= j ==> Joined(changes, k)
  }

  /** Between two kept lines, old and new lines are paired as long as there are both, and
      what is left over is only removed or only added. */
  ghost predicate PairedFirst(changes: seq<LineDiff>) {
    forall i, j {:trigger OneRun(changes, i, j)} :: 0 <= i < j && OneRun(changes, i, j) ==>
      MayFollow(changes[i], changes[j])
  }

  lemma {:induction false} RunFollows(changes: seq<LineDiff>, i: nat, j: nat)
    requires Paired(changes) && i < j && OneRun(changes, i, j)
    ensures MayFollow(changes[i], changes[j])
  {
    assert Joined(changes, j);
    if i + 1 < j {
      assert OneRun(changes, i, j - 1);
      RunFollows(changes, i, j - 1);
    }
  }

  lemma PairedMeansFirst(changes: seq<LineDiff>)
    requires Paired(changes)
    ensures PairedFirst(changes)
  {
    forall i, j | 0 <= i < j && OneRun(changes, i, j) ensures MayFollow(changes[i], changes[j]) {
      RunFollows(changes, i, j);
    }
  }

  ghost predicate IsRun(changes: seq<LineDiff>) {
    forall i, j :: 0 <= i < j < |changes| ==> MayFollow(changes[i], changes[j])
  }

  /** In a run, as many changes are reported as the lesser of the lines dropped and inserted. */
  lemma {:induction false} RunCounts(run: seq<LineDiff>)
    requires IsRun(run)
    ensures Additions(run) == 0 || Deletions(run) == 0
    ensures Edits(run) == Min(Deletions(run) + Edits(run), Additions(run) + Edits(run))
  {
    if run != [] {
      RunCounts(Front(run));
      CountAll(Front(run));
      if Last(run).Changed? {
        AllChanged(Front(run));
      } else {
        OneKind(Front(run), Last(run));
      }
    }
  }

  function Min(a: int, b: int): int {
    if a <= b then a else b
  }

  lemma {:induction false} AllChanged(run: seq<LineDiff>)
    requires forall i :: 0 <= i < |run| ==> run[i].Changed?
    ensures Additions(run) == 0 && Deletions(run) == 0
  {
    if run != [] {
      AllChanged(Front(run));
    }
  }

  lemma {:induction false} OneKind(run: seq<LineDiff>, d: LineDiff)
    requires forall i :: 0 <= i < |run| ==> MayFollow(run[i], d)
    ensures !d.Added? ==> Additions(run) == 0
    ensures !d.Removed? ==> Deletions(run) == 0
  {
    if run != [] {
      OneKind(Front(run), d);
    }
  }

  /** Every stretch of the reported changes without a kept line inside has these counts. */
  lemma StretchCounts(changes: seq<LineDiff>, i: nat, j: nat)
    requires PairedFirst(changes) && OneRun(changes, i, j)
    ensures var run := changes[i..j + 1];
            && (Additions(run) == 0 || Deletions(run) == 0)
            && Edits(run) == Min(Deletions(run) + Edits(run), Additions(run) + Edits(run))
  {
    var run := changes[i..j + 1];
    forall k, l | 0 <= k < l < |run| ensures MayFollow(run[k], run[l]) {
      assert OneRun(changes, i + k, i + l);
    }
    RunCounts(run);
  }

  /** The text stands at the next common line. */
  ghost predicate AtCommon(text: seq<Line>, i: nat, lcs: seq<Line>, k: nat) {
    k < |lcs| && i < |text| && text[i] == lcs[k]
  }

  /** What the walk still allows after the last change, if no line has been kept since. */
  ghost predicate PairInv(before: seq<Line>, after: seq<Line>, lcs: seq<Line>, changes: seq<LineDiff>,
                          bi: nat, ai: nat, k: nat) {
    var (b, a) := Place(changes);
    && Paired(changes) && b <= bi && bi - b == ai - a
    && (changes != [] && b == bi ==>
          match Last(changes)
          case Added(_, _) => bi == |before| || AtCommon(before, bi, lcs, k)
          case Removed(_, _) => ai == |after| || AtCommon(after, ai, lcs, k)
          case Changed(_, _, _) => true)
  }

  lemma PairStep(before: seq<Line>, after: seq<Line>, lcs: seq<Line>, changes: seq<LineDiff>,
                 bi: nat, ai: nat, k: nat, d: LineDiff)
    requires PairInv(before, after, lcs, changes, bi, ai, k) && Reports(before, after, bi, ai, d)
    requires d.Added? ==>
               (bi == |before| || AtCommon(before, bi, lcs, k)) && !AtCommon(after, ai, lcs, k)
    requires d.Removed? ==>
               (ai == |after| || AtCommon(after, ai, lcs, k)) && !AtCommon(before, bi, lcs, k)
    requires d.Changed? ==> !AtCommon(before, bi, lcs, k) && !AtCommon(after, ai, lcs, k)
    ensures PairInv(before, after, lcs, changes + [d], NextBefore(bi, d), NextAfter(ai, d), k)
  {
    var changes' := changes + [d];
    assert Front(changes') == changes;
    forall i | 0 < i < |changes'| && Joined(changes', i) ensures MayFollow(changes'[i - 1], changes'[i]) {
      if i < |changes| {
        assert changes'[..i] == changes[..i];
        assert Joined(changes, i);
      } else {
        assert changes'[..i] == changes;
      }
    }
  }

  lemma PairCopy(before: seq<Line>, after: seq<Line>, lcs: seq<Line>, changes: seq<LineDiff>,
                 bi: nat, ai: nat, k: nat)
    requires PairInv(before, after, lcs, changes, bi, ai, k)
    ensures PairInv(before, after, lcs, changes, bi + 1, ai + 1, k + 1)
  {
  }

  /** The reported changes turn `before` into `after` and back, no reported change is
      between equal lines, no other script leaves more lines alone, and dropped and
      inserted lines between two kept ones are paired as changes while there are both. */
  method ComputeLineDiffs(before: seq<Line>, after: seq<Line>) returns (changes: seq<LineDiff>)
    ensures changes == [] <==> before == after
    ensures forall d :: d in changes && d.Changed? ==> d.before != d.after
    ensures Unchanged(before, changes) == Lcs(before, after)
    ensures forall script :: Replay(before, script) == Some(after) ==>
              Unchanged(before, script) <= Unchanged(before, changes)
    ensures Additions(changes) - Deletions(changes) == |after| - |before|
    ensures Replay(before, changes) == Some(after)
    ensures Undo(after, changes) == Some(before)
    ensures PairedFirst(changes)
  {
    hide PairInv, PairedFirst, WalkInv, ScriptInv, IsSubseq, Lcs, Replay, Undo, Unchanged, Additions, Deletions;
    changes := [];
    var lcs := LongestCommonSubsequence(before, after);
    var bi, ai, k := 0, 0, 0;
    WalkStart(before, after, lcs);
    assert PairInv(before, after, lcs, changes, 0, 0, 0) by { PairStart(before, after, lcs); }
    while bi < |before| || ai < |after|
      invariant bi <= |before| && ai <= |after|
      invariant WalkInv(before, after, lcs, bi, ai, k)
      invariant ScriptInv(before, after, changes, bi, ai, k)
      invariant PairInv(before, after, lcs, changes, bi, ai, k)
      decreases |before| - bi + |after| - ai
    {
      AheadInRange(before, after, lcs, bi, ai, k);
      if k < |lcs| && bi < |before| && before[bi] == lcs[k] {
        if ai < |after| && after[ai] == lcs[k] {
          PassCommon(before, after, lcs, bi, ai, k);
          ScriptCopy(before, after, changes, bi, ai, k);
          PairCopy(before, after, lcs, changes, bi, ai, k);
          bi, ai, k := bi + 1, ai + 1, k + 1;
        } else {
          SkipAfter(before, after, lcs, bi, ai, k);
          ScriptStep(before, after, changes, bi, ai, k, Added(ai + 1, after[ai]));
          PairStep(before, after, lcs, changes, bi, ai, k, Added(ai + 1, after[ai]));
          changes := changes + [Added(ai + 1, after[ai])];
          ai := ai + 1;
        }
      } else if k < |lcs| && ai < |after| && after[ai] == lcs[k] {
        SkipBefore(before, after, lcs, bi, ai, k);
        ScriptStep(before, after, changes, bi, ai, k, Removed(bi + 1, before[bi]));
        PairStep(before, after, lcs, changes, bi, ai, k, Removed(bi + 1, before[bi]));
        changes := changes + [Removed(bi + 1, before[bi])];
        bi := bi + 1;
      } else if bi < |before| && ai < |after| {
        PairedLinesDiffer(before, after, lcs, bi, ai, k);
        SkipBefore(before, after, lcs, bi, ai, k);
        SkipAfter(before, after, lcs, bi + 1, ai, k);
        ScriptStep(before, after, changes, bi, ai, k, Changed(bi + 1, before[bi], after[ai]));
        PairStep(before, after, lcs, changes, bi, ai, k, Changed(bi + 1, before[bi], after[ai]));
        changes := changes + [Changed(bi + 1, before[bi], after[ai])];
        bi, ai := bi + 1, ai + 1;
      } else if bi < |before| {
        SkipBefore(before, after, lcs, bi, ai, k);
        ScriptStep(before, after, changes, bi, ai, k, Removed(bi + 1, before[bi]));
        PairStep(before, after, lcs, changes, bi, ai, k, Removed(bi + 1, before[bi]));
        changes := changes + [Removed(bi + 1, before[bi])];
        bi := bi + 1;
      } else {
        SkipAfter(before, after, lcs, bi, ai, k);
        ScriptStep(before, after, changes, bi, ai, k, Added(ai + 1, after[ai]));
        PairStep(before, after, lcs, changes, bi, ai, k, Added(ai + 1, after[ai]));
        changes := changes + [Added(ai + 1, after[ai])];
        ai := ai + 1;
      }
    }
    WalkEnd(before, after, lcs, changes, k);
    PairEnd(before, after, lcs, changes, bi, ai, k);
    ScriptIsBest(before, after, changes);
  }

  lemma PairStart(before: seq<Line>, after: seq<Line>, lcs: seq<Line>)
    ensures PairInv(before, after, lcs, [], 0, 0, 0)
  {
  }

  lemma PairEnd(before: seq<Line>, after: seq<Line>, lcs: seq<Line>, changes: seq<LineDiff>, bi: nat, ai: nat, k: nat)
    requires PairInv(before, after, lcs, changes, bi, ai, k)
    ensures PairedFirst(changes)
  {
    PairedMeansFirst(changes);
  }

  /** While common lines remain, both texts have lines left: no change reads past either. */
  lemma AheadInRange(before: seq<Line>, after: seq<Line>, lcs: seq<Line>, bi: nat, ai: nat, k: nat)
    requires WalkInv(before, after, lcs, bi, ai, k)
    ensures k <= |lcs| && (k < |lcs| ==> bi < |before| && ai < |after|)
  {
  }

  lemma ScriptIsBest(before: seq<Line>, after: seq<Line>, changes: seq<LineDiff>)
    requires Replay(before, changes) == Some(after)
    requires Unchanged(before, changes) == Lcs(before, after)
    requires Additions(changes) - Deletions(changes) == |after| - |before|
    ensures forall script :: Replay(before, script) == Some(after) ==>
              Unchanged(before, script) <= Unchanged(before, changes)
    ensures changes == [] <==> before == after
  {
    hide Lcs, Unchanged, Additions, Deletions, Replay;
    forall script | Replay(before, script) == Some(after)
      ensures Unchanged(before, script) <= Unchanged(before, changes)
    {
      ScriptsKeepAtMostLcs(before, after, script);
    }
    EmptyScript(before);
    if before == after {
      NoChanges(before, changes);
    }
  }

  lemma EmptyScript(text: seq<Line>)
    ensures Replay(text, []) == Some(text) && Unchanged(text, []) == |text|
  {
    assert [] + text[0..] == text;
  }

  lemma NoChanges(before: seq<Line>, changes: seq<LineDiff>)
    requires Unchanged(before, changes) >= |before| && Additions(changes) <= Deletions(changes)
    ensures changes == []
  {
    CountAll(changes);
  }

  lemma {:induction false} CountAll(changes: seq<LineDiff>)
    ensures Additions(changes) + Deletions(changes) + Edits(changes) == |changes|
  {
    if changes != [] {
      CountAll(Front(changes));
    }
  }
}
