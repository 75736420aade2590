/** Subsequences and the length of a longest common one. */
module Subsequences {

  ghost predicate IsSubseq<T>(c: seq<T>, s: seq<T>) {
    if c == [] then true
    else if s == [] then false
    else (c[0] == s[0] && IsSubseq(c[1..], s[1..])) || IsSubseq(c, s[1..])
  }

  ghost predicate IsCommon<T>(c: seq<T>, a: seq<T>, b: seq<T>) {
    IsSubseq(c, a) && IsSubseq(c, b)
  }

  lemma {:induction false} DropHead<T>(c: seq<T>, s: seq<T>)
    requires c != [] && IsSubseq(c, s)
    ensures s != [] && IsSubseq(c[1..], s[1..])
  {
    if !(c[0] == s[0] && IsSubseq(c[1..], s[1..])) {
      DropHead(c, s[1..]);
      Widen(c[1..], s[1..]);
    }
  }

  lemma Widen<T>(c: seq<T>, s: seq<T>)
    requires s != [] && IsSubseq(c, s[1..])
    ensures IsSubseq(c, s)
  {
  }

  lemma {:induction false} Reflexive<T>(s: seq<T>)
    ensures IsSubseq(s, s)
  {
    if s != [] {
      Reflexive(s[1..]);
    }
  }

  lemma {:induction false} Concat<T>(c: seq<T>, s: seq<T>, c': seq<T>, s': seq<T>)
    requires IsSubseq(c, s) && IsSubseq(c', s')
    ensures IsSubseq(c + c', s + s')
    decreases |s|
  {
    if s == [] {
      assert c + c' == c' && s + s' == s';
    } else {
      assert (s + s')[1..] == s[1..] + s';
      if c != [] && c[0] == s[0] && IsSubseq(c[1..], s[1..]) {
        Concat(c[1..], s[1..], c', s');
        assert (c + c')[1..] == c[1..] + c';
      } else {
        Concat(c, s[1..], c', s');
        Widen(c + c', s + s');
      }
    }
  }

  lemma Empty<T>(s: seq<T>)
    ensures IsSubseq([], s)
  {
  }

  /** Growing the host at the end keeps a subsequence, and so does growing both by one element. */
  lemma Extend<T>(c: seq<T>, s: seq<T>, x: T)
    requires IsSubseq(c, s)
    ensures IsSubseq(c, s + [x]) && IsSubseq(c + [x], s + [x])
  {
    Empty([x]);
    Concat(c, s, [], [x]);
    assert c + [] == c;
    Reflexive([x]);
    Concat(c, s, [x], [x]);
  }

  /** A subsequence of s either avoids the last element of s or ends with it. */
  lemma {:induction false} SplitLast<T>(c: seq<T>, s: seq<T>)
    requires c != [] && IsSubseq(c, s)
    ensures s != [] && IsSubseq(c[..|c| - 1], s[..|s| - 1])
    ensures IsSubseq(c, s[..|s| - 1]) || c[|c| - 1] == s[|s| - 1]
    decreases |s|
  {
    var front := s[..|s| - 1];
    if |s| > 1 {
      assert front[1..] == s[1..][..|s[1..]| - 1];
    }
    if c[0] == s[0] && IsSubseq(c[1..], s[1..]) {
      if |c| > 1 {
        SplitLast(c[1..], s[1..]);
        assert c[..|c| - 1][1..] == c[1..][..|c[1..]| - 1];
      } else {
        assert c[..0] == [];
        if |s| > 1 {
          assert c[1..] == [];
        }
      }
    } else {
      SplitLast(c, s[1..]);
      Widen(c[..|c| - 1], front);
    }
  }

  /** The recurrence that the dynamic program tabulates. */
  ghost function Lcs<T>(a: seq<T>, b: seq<T>): nat
    decreases |a| + |b|
  {
    if a == [] || b == [] then 0
    else
      var a', b' := a[..|a| - 1], b[..|b| - 1];
      if a[|a| - 1] == b[|b| - 1] then Lcs(a', b') + 1
      else if Lcs(a', b) > Lcs(a, b') then Lcs(a', b)
      else Lcs(a, b')
  }

  /** No common subsequence is longer than the recurrence says. */
  lemma {:induction false} LcsIsUpperBound<T>(a: seq<T>, b: seq<T>, c: seq<T>)
    requires IsCommon(c, a, b)
    ensures |c| <= Lcs(a, b)
    decreases |a| + |b|
  {
    if c != [] {
      SplitLast(c, a);
      SplitLast(c, b);
      var a', b' := a[..|a| - 1], b[..|b| - 1];
      if a[|a| - 1] == b[|b| - 1] {
        LcsIsUpperBound(a', b', c[..|c| - 1]);
      } else if IsSubseq(c, a') {
        LcsIsUpperBound(a', b, c);
      } else {
        LcsIsUpperBound(a, b', c);
      }
    }
  }
}
