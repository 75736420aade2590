/** Applying fixes to the lines of one file (packages/code/src/autofix/FixGenerator.ts). */
module FixGenerator {
  import opened Common
  import opened Sorting

  type Line = string

  /** The optional payloads may be missing, in which case the fix does nothing. */
  datatype Action = Replace(replacement: Option<Line>) | Remove | Insert(insertAfter: Option<Line>)

  datatype Fix = Fix(line: int, action: Action)

  datatype Outcome = Outcome(lines: seq<Line>, applied: nat, failed: nat)

  // ----- the meaning: all fixes at once, on the original lines -----

  /** What one targeted line becomes. */
  function Rewrite(line: Line, a: Action): seq<Line> {
    match a
    case Replace(r) => [if r.Some? then r.value else line]
    case Remove => []
    case Insert(x) => if x.Some? then [line, x.value] else [line]
  }

  function FixFor(fixes: seq<Fix>, line: int): Option<Fix> {
    if fixes == [] then None
    else if fixes[0].line == line then Some(fixes[0])
    else FixFor(fixes[1..], line)
  }

  /** Every line from index i on, rewritten by the fix that targets it, if any. */
  function Simultaneous(lines: seq<Line>, fixes: seq<Fix>, i: nat): seq<Line>
    requires i <= |lines|
    decreases |lines| - i
  {
    if i == |lines| then []
    else
      var fix := FixFor(fixes, i + 1);
      (if fix.Some? then Rewrite(lines[i], fix.value.action) else [lines[i]]) + Simultaneous(lines, fixes, i + 1)
  }

  predicate InFile(lines: seq<Line>, f: Fix) {
    1 <= f.line <= |lines|
  }

  /** The fix has everything it needs. */
  predicate Effective(f: Fix) {
    match f.action
    case Replace(r) => r.Some?
    case Remove => true
    case Insert(x) => x.Some?
  }

  function CountApplied(lines: seq<Line>, fixes: seq<Fix>): nat {
    if fixes == [] then 0
    else (if InFile(lines, fixes[0]) && Effective(fixes[0]) then 1 else 0) + CountApplied(lines, fixes[1..])
  }

  function CountFailed(lines: seq<Line>, fixes: seq<Fix>): nat {
    if fixes == [] then 0
    else (if InFile(lines, fixes[0]) then 0 else 1) + CountFailed(lines, fixes[1..])
  }

  ghost predicate DistinctLines(fixes: seq<Fix>) {
    forall i, j :: 0 <= i < j < |fixes| ==> fixes[i].line != fixes[j].line
  }

  // ----- sorting by descending line -----

  /** Highest line first; fixes of one line keep their order. */
  function SortFixes(fixes: seq<Fix>): seq<Fix> {
    Sort((f: Fix, g: Fix) => f.line >= g.line, fixes)
  }

  ghost predicate Descending(fixes: seq<Fix>) {
    forall i, j :: 0 <= i < j < |fixes| ==> fixes[i].line > fixes[j].line
  }

  lemma CountCons(lines: seq<Line>, f: Fix, s: seq<Fix>)
    ensures CountApplied(lines, [f] + s) == CountApplied(lines, [f]) + CountApplied(lines, s)
    ensures CountFailed(lines, [f] + s) == CountFailed(lines, [f]) + CountFailed(lines, s)
  {
    assert ([f] + s)[1..] == s && [f][1..] == [];
  }

  lemma {:induction false} CountConcat(lines: seq<Line>, s: seq<Fix>, t: seq<Fix>)
    ensures CountApplied(lines, s + t) == CountApplied(lines, s) + CountApplied(lines, t)
    ensures CountFailed(lines, s + t) == CountFailed(lines, s) + CountFailed(lines, t)
  {
    if s == [] {
      assert s + t == t;
    } else {
      CountConcat(lines, s[1..], t);
      assert (s + t)[1..] == s[1..] + t && (s + t)[0] == s[0];
    }
  }

  function Without(t: seq<Fix>, k: nat): seq<Fix>
    requires k < |t|
  {
    t[..k] + t[k + 1..]
  }

  lemma CountWithout(lines: seq<Line>, t: seq<Fix>, k: nat)
    requires k < |t|
    ensures multiset(t) == multiset(Without(t, k)) + multiset{t[k]}
    ensures CountApplied(lines, t) == CountApplied(lines, [t[k]]) + CountApplied(lines, Without(t, k))
    ensures CountFailed(lines, t) == CountFailed(lines, [t[k]]) + CountFailed(lines, Without(t, k))
  {
    hide CountApplied, CountFailed;
    var a, b := t[..k], t[k + 1..];
    assert t == a + [t[k]] + b;
    CountConcat(lines, a + [t[k]], b);
    CountConcat(lines, a, [t[k]]);
    CountConcat(lines, a, b);
  }

  lemma Cancel(a: multiset<Fix>, b: multiset<Fix>, f: Fix)
    requires a + multiset{f} == b + multiset{f}
    ensures a == b
  {
    assert a == a + multiset{f} - multiset{f};
    assert b == b + multiset{f} - multiset{f};
  }

  /** The counts do not depend on the order. */
  lemma {:induction false} CountPermuted(lines: seq<Line>, s: seq<Fix>, t: seq<Fix>)
    requires multiset(s) == multiset(t)
    ensures CountApplied(lines, s) == CountApplied(lines, t)
    ensures CountFailed(lines, s) == CountFailed(lines, t)
    decreases |s|
  {
    assert |s| == |multiset(s)| == |multiset(t)| == |t|;
    if s == [] {
      assert t == [];
    } else {
      assert s[0] in multiset(t) && |Without(s, 0)| < |s|;
      hide CountApplied, CountFailed, Without;
      var k :| 0 <= k < |t| && t[k] == s[0];
      CountWithout(lines, s, 0);
      CountWithout(lines, t, k);
      Cancel(multiset(Without(s, 0)), multiset(Without(t, k)), s[0]);
      CountPermuted(lines, Without(s, 0), Without(t, k));
    }
  }

  function OfLine(fixes: seq<Fix>, line: int): seq<Fix> {
    if fixes == [] then []
    else (if fixes[0].line == line then [fixes[0]] else []) + OfLine(fixes[1..], line)
  }

  /** The fixes of one line are applied in the order in which they were given. */
  lemma SameLineKeepsOrder(fixes: seq<Fix>, f: Fix)
    ensures OfLine(SortFixes(fixes), f.line) == OfLine(fixes, f.line)
  {
    var before := (f: Fix, g: Fix) => f.line >= g.line;
    SortStable(before, fixes, f);
    TiesAreOfLine(fixes, f);
    TiesAreOfLine(SortFixes(fixes), f);
  }

  lemma {:induction false} TiesAreOfLine(fixes: seq<Fix>, f: Fix)
    ensures Ties((f: Fix, g: Fix) => f.line >= g.line, f, fixes) == OfLine(fixes, f.line)
  {
    if fixes != [] {
      TiesAreOfLine(fixes[1..], f);
    }
  }

  lemma SortFixesSpec(fixes: seq<Fix>, lines: seq<Line>)
    requires DistinctLines(fixes)
    ensures Descending(SortFixes(fixes))
    ensures forall g :: g in SortFixes(fixes) <==> g in fixes
    ensures CountApplied(lines, SortFixes(fixes)) == CountApplied(lines, fixes)
    ensures CountFailed(lines, SortFixes(fixes)) == CountFailed(lines, fixes)
  {
    var before := (f: Fix, g: Fix) => f.line >= g.line;
    var sorted := SortFixes(fixes);
    assert NoDup(fixes);
    SortKeeps(before, fixes);
    SortNoDup(before, fixes);
    SortInOrder(before, fixes);
    CountPermuted(lines, sorted, fixes);
    forall i, j | 0 <= i < j < |sorted| ensures sorted[i].line > sorted[j].line {
      assert before(sorted[i], sorted[j]);
      var f, g := sorted[i], sorted[j];
      assert f in sorted && g in sorted && f != g;
      var k :| 0 <= k < |fixes| && fixes[k] == f;
      var l :| 0 <= l < |fixes| && fixes[l] == g;
    }
  }

  // ----- bottom-up equals simultaneous -----

  lemma {:induction false} FixForSpec(fixes: seq<Fix>, f: Fix)
    requires DistinctLines(fixes) && f in fixes
    ensures FixFor(fixes, f.line) == Some(f)
  {
    if fixes[0] != f {
      InSplit(fixes, f);
      var k :| 0 <= k < |fixes| && fixes[k] == f;
      assert fixes[0].line != fixes[k].line;
      FixForSpec(fixes[1..], f);
    }
  }

  lemma {:induction false} FixForNone(fixes: seq<Fix>, line: int)
    requires forall f :: f in fixes ==> f.line != line
    ensures FixFor(fixes, line) == None
  {
    if fixes != [] {
      assert fixes[0] in fixes;
      assert forall f :: f in fixes[1..] ==> f in fixes;
      FixForNone(fixes[1..], line);
    }
  }

  /** Untargeted lines are copied. */
  lemma {:induction false} CopyUntouched(lines: seq<Line>, fixes: seq<Fix>, i: nat, b: nat)
    requires i <= b <= |lines| && forall f :: f in fixes ==> !(i < f.line <= b)
    ensures Simultaneous(lines, fixes, i) == lines[i..b] + Simultaneous(lines, fixes, b)
    decreases b - i
  {
    if i == b {
      assert lines[i..b] == [];
    } else {
      FixForNone(fixes, i + 1);
      hide FixFor;
      CopyUntouched(lines, fixes, i + 1, b);
      var rest := Simultaneous(lines, fixes, b);
      assert lines[i..b] == [lines[i]] + lines[i + 1..b];
      assert [lines[i]] + (lines[i + 1..b] + rest) == [lines[i]] + lines[i + 1..b] + rest;
    }
  }

  /** The state between two fixes: everything from index b on is rewritten. */
  ghost predicate Rewritten(lines: seq<Line>, fixes: seq<Fix>, b: nat, current: seq<Line>) {
    b <= |lines| && current == lines[..b] + Simultaneous(lines, fixes, b)
  }

  /** Splicing the next fix in place rewrites its line and keeps what is below. */
  lemma SpliceStep(lines: seq<Line>, fixes: seq<Fix>, b: nat, current: seq<Line>, f: Fix)
    requires DistinctLines(fixes) && Rewritten(lines, fixes, b, current)
    requires f in fixes && 1 <= f.line <= b && forall g :: g in fixes ==> !(f.line < g.line <= b)
    ensures f.line <= |current| && current[f.line - 1] == lines[f.line - 1]
    ensures Rewritten(lines, fixes, f.line - 1,
                      current[..f.line - 1] + Rewrite(current[f.line - 1], f.action) + current[f.line..])
  {
    var i := f.line - 1;
    CopyUntouched(lines, fixes, i + 1, b);
    FixForSpec(fixes, f);
    var tail := Simultaneous(lines, fixes, b);
    assert lines[..b] == lines[..i] + [lines[i]] + lines[i + 1..b];
    assert current == lines[..i] + [lines[i]] + (lines[i + 1..b] + tail);
    assert current[..i] == lines[..i] && current[i + 1..] == lines[i + 1..b] + tail;
    assert Simultaneous(lines, fixes, i) == Rewrite(lines[i], f.action) + Simultaneous(lines, fixes, i + 1);
  }

  /** Splice one fix into the current lines, or count it as failed. */
  function ApplyOne(o: Outcome, f: Fix): Outcome {
    if InFile(o.lines, f) then
      Outcome(o.lines[..f.line - 1] + Rewrite(o.lines[f.line - 1], f.action) + o.lines[f.line..],
              o.applied + (if Effective(f) then 1 else 0), o.failed)
    else o.(failed := o.failed + 1)
  }

  function ApplyInOrder(o: Outcome, fixes: seq<Fix>): Outcome
    decreases |fixes|
  {
    if fixes == [] then o else ApplyInOrder(ApplyOne(o, fixes[0]), fixes[1..])
  }

  /** Between two fixes: those done in the file lie above b, those to come do not. */
  ghost predicate Pending(lines: seq<Line>, sorted: seq<Fix>, k: nat, b: nat) {
    && k <= |sorted| && b <= |lines|
    && (forall j :: 0 <= j < k && InFile(lines, sorted[j]) ==> sorted[j].line > b)
    && (forall j :: k <= j < |sorted| && InFile(lines, sorted[j]) ==> sorted[j].line <= b)
    && (b < |lines| ==> forall j :: k <= j < |sorted| ==> sorted[j].line <= b)
  }

  lemma PendingStep(lines: seq<Line>, sorted: seq<Fix>, fixes: seq<Fix>, k: nat, b: nat)
    requires Descending(sorted) && k < |sorted| && (forall g :: g in sorted <==> g in fixes)
    requires Pending(lines, sorted, k, b)
    ensures var f := sorted[k];
            && f in fixes
            && (InFile(lines, f) ==> Pending(lines, sorted, k + 1, f.line - 1) && f.line <= b &&
                                     forall g :: g in fixes ==> !(f.line < g.line <= b))
            && (!InFile(lines, f) ==> Pending(lines, sorted, k + 1, b) && (f.line > |lines| ==> b == |lines|))
  {
    var f := sorted[k];
    assert f in sorted;
    if InFile(lines, f) {
      forall g | g in fixes ensures !(f.line < g.line <= b) {
        var j :| 0 <= j < |sorted| && sorted[j] == g;
      }
    }
  }

  lemma AllCopied(lines: seq<Line>, fixes: seq<Fix>)
    ensures lines[..|lines|] + Simultaneous(lines, fixes, |lines|) == lines
  {
  }

  lemma NothingAbove(lines: seq<Line>, sorted: seq<Fix>, fixes: seq<Fix>, b: nat)
    requires (forall g :: g in sorted <==> g in fixes) && Pending(lines, sorted, |sorted|, b)
    ensures forall g :: g in fixes ==> !(0 < g.line <= b)
  {
    forall g | g in fixes ensures !(0 < g.line <= b) {
      var j :| 0 <= j < |sorted| && sorted[j] == g;
    }
  }

  lemma InOrderUnfold(o: Outcome, sorted: seq<Fix>, k: nat)
    requires k < |sorted|
    ensures ApplyInOrder(o, sorted[k..]) == ApplyInOrder(ApplyOne(o, sorted[k]), sorted[k + 1..])
  {
    assert sorted[k..][0] == sorted[k] && sorted[k..][1..] == sorted[k + 1..];
  }

  lemma CountOne(lines: seq<Line>, f: Fix)
    ensures CountApplied(lines, [f]) == if InFile(lines, f) && Effective(f) then 1 else 0
    ensures CountFailed(lines, [f]) == if InFile(lines, f) then 0 else 1
  {
    assert [f][1..] == [];
  }

  /** From the state between two fixes, the remaining fixes complete the rewriting. */
  lemma {:induction false} FinishFixes(lines: seq<Line>, fixes: seq<Fix>, sorted: seq<Fix>, k: nat, b: nat, o: Outcome)
    requires DistinctLines(fixes) && Descending(sorted) && (forall g :: g in sorted <==> g in fixes)
    requires Pending(lines, sorted, k, b) && Rewritten(lines, fixes, b, o.lines)
    ensures k <= |sorted|
    ensures ApplyInOrder(o, sorted[k..]) ==
            Outcome(Simultaneous(lines, fixes, 0), o.applied + CountApplied(lines, sorted[k..]),
                    o.failed + CountFailed(lines, sorted[k..]))
    decreases |sorted| - k
  {
    if k == |sorted| {
      NothingAbove(lines, sorted, fixes, b);
      CopyUntouched(lines, fixes, 0, b);
      assert lines[0..b] == lines[..b];
    } else {
      var f := sorted[k];
      InOrderUnfold(o, sorted, k);
      assert sorted[k..] == [f] + sorted[k + 1..];
      CountCons(lines, f, sorted[k + 1..]);
      CountOne(lines, f);
      hide Simultaneous, Pending, ApplyInOrder, CountApplied, CountFailed, DistinctLines, Descending;
      PendingStep(lines, sorted, fixes, k, b);
      if InFile(lines, f) {
        SpliceStep(lines, fixes, b, o.lines, f);
        FinishFixes(lines, fixes, sorted, k + 1, f.line - 1, ApplyOne(o, f));
      } else {
        if f.line > |lines| {
          AllCopied(lines, fixes);
        }
        FinishFixes(lines, fixes, sorted, k + 1, b, ApplyOne(o, f));
      }
    }
  }

  /** Fixes on distinct lines of a file, spliced in from the bottom up, give the same
      lines as applying them all at once to the original; a fix fails iff its line is
      not a line of the original file. */
  lemma BottomUpIsSimultaneous(lines: seq<Line>, fixes: seq<Fix>)
    requires DistinctLines(fixes)
    ensures ApplyInOrder(Outcome(lines, 0, 0), SortFixes(fixes)) ==
            Outcome(Simultaneous(lines, fixes, 0), CountApplied(lines, fixes), CountFailed(lines, fixes))
  {
    var sorted := SortFixes(fixes);
    SortFixesSpec(fixes, lines);
    AllCopied(lines, fixes);
    assert sorted[0..] == sorted;
    FinishFixes(lines, fixes, sorted, 0, |lines|, Outcome(lines, 0, 0));
  }

  /** One fix, as the program applies it. */
  method ApplyFix(o: Outcome, fix: Fix) returns (r: Outcome)
    ensures r == ApplyOne(o, fix)
    ensures !(1 <= fix.line <= |o.lines|) ==> r == o.(failed := o.failed + 1)
    ensures 1 <= fix.line <= |o.lines| ==>
              match fix.action
              case Replace(Some(text)) => r == Outcome(o.lines[fix.line - 1 := text], o.applied + 1, o.failed)
              case Remove =>
                r == Outcome(o.lines[..fix.line - 1] + o.lines[fix.line..], o.applied + 1, o.failed)
              case Insert(Some(text)) =>
                r == Outcome(o.lines[..fix.line] + [text] + o.lines[fix.line..], o.applied + 1, o.failed)
              case _ => r == o
  {
    var lines, applied := o.lines, o.applied;
    var index := fix.line - 1;
    if index < 0 || index >= |lines| {
      return o.(failed := o.failed + 1);
    }
    assert lines == lines[..index] + [lines[index]] + lines[index + 1..];
    match fix.action {
      case Replace(replacement) =>
        if replacement.Some? {
          lines, applied := lines[index := replacement.value], applied + 1;
        }
      case Remove =>
        lines, applied := lines[..index] + lines[index + 1..], applied + 1;
      case Insert(insertAfter) =>
        if insertAfter.Some? {
          lines, applied := lines[..index + 1] + [insertAfter.value] + lines[index + 1..], applied + 1;
        }
    }
    assert lines == o.lines[..index] + Rewrite(o.lines[index], fix.action) + o.lines[index + 1..];
    r := Outcome(lines, applied, o.failed);
  }

  /** The fixes of one file, highest line first. */
  method ApplyFixes(lines: seq<Line>, fixes: seq<Fix>) returns (r: Outcome)
    ensures r == ApplyInOrder(Outcome(lines, 0, 0), SortFixes(fixes))
    ensures DistinctLines(fixes) ==>
              r == Outcome(Simultaneous(lines, fixes, 0), CountApplied(lines, fixes), CountFailed(lines, fixes))
  {
    var sorted := SortFixes(fixes);
    r := Outcome(lines, 0, 0);
    assert sorted[0..] == sorted;
    for k := 0 to |sorted|
      invariant ApplyInOrder(r, sorted[k..]) == ApplyInOrder(Outcome(lines, 0, 0), sorted)
    {
      InOrderUnfold(r, sorted, k);
      r := ApplyFix(r, sorted[k]);
    }
    assert sorted[|sorted|..] == [];
    hide SortFixes, Simultaneous, CountApplied, CountFailed;
    if DistinctLines(fixes) {
      BottomUpIsSimultaneous(lines, fixes);
    }
  }
}
