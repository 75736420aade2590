/** LIKE patterns built from user input (packages/atrium/src/utils/cockpit-data.ts). */
module Like {

  /** SQLite compares letters of the ASCII range without regard to case. */
  function Fold(c: char): char {
    if 'A' <= c <= 'Z' then c + ('a' - 'A') else c
  }

  function FoldAll(s: string): string {
    seq(|s|, i requires 0 <= i < |s| => Fold(s[i]))
  }

  /** LIKE with escape character backslash (section 8.5 of ISO/IEC 9075:1992): an
      escaped character stands for itself, `%` for any string, `_` for any character.
      A pattern that ends in a bare escape character matches nothing. */
  predicate Matches(p: string, s: string)
    decreases |p| + |s|
  {
    if p == "" then s == ""
    else if p[0] == '\\' then |p| >= 2 && s != "" && Fold(p[1]) == Fold(s[0]) && Matches(p[2..], s[1..])
    else if p[0] == '%' then Matches(p[1..], s) || (s != "" && Matches(p, s[1..]))
    else if p[0] == '_' then s != "" && Matches(p[1..], s[1..])
    else s != "" && Fold(p[0]) == Fold(s[0]) && Matches(p[1..], s[1..])
  }

  predicate Special(c: char) {
    c == '\\' || c == '%' || c == '_'
  }

  function EscapeLike(raw: string): string {
    if raw == "" then ""
    else (if Special(raw[0]) then ['\\', raw[0]] else [raw[0]]) + EscapeLike(raw[1..])
  }

  /** The query occurs in s at position i, up to case. */
  predicate OccursAt(q: string, s: string, i: nat) {
    i + |q| <= |s| && FoldAll(s[i..i + |q|]) == FoldAll(q)
  }

  lemma FoldAllCons(s: string)
    requires s != ""
    ensures FoldAll(s) == [Fold(s[0])] + FoldAll(s[1..])
  {
  }

  /** An escaped query matches itself, and only itself, at the front. */
  lemma {:induction false} EscapedIsLiteral(q: string, p: string, s: string)
    ensures Matches(EscapeLike(q) + p, s) <==>
            |q| <= |s| && FoldAll(s[..|q|]) == FoldAll(q) && Matches(p, s[|q|..])
  {
    var e := EscapeLike(q) + p;
    if q == "" {
      assert e == p && s[0..] == s && FoldAll(s[..0]) == FoldAll(q);
    } else {
      var head := if Special(q[0]) then ['\\', q[0]] else [q[0]];
      var rest := EscapeLike(q[1..]) + p;
      assert e == head + rest;
      assert e[|head|..] == rest;
      if s == "" {
        assert !Matches(e, s);
      } else {
        assert Matches(e, s) <==> Fold(q[0]) == Fold(s[0]) && Matches(rest, s[1..]);
        EscapedIsLiteral(q[1..], p, s[1..]);
        if |q| <= |s| {
          FoldAllCons(q);
          FoldAllCons(s[..|q|]);
          assert s[..|q|][1..] == s[1..][..|q[1..]|];
          assert s[|q|..] == s[1..][|q[1..]|..];
          assert FoldAll(s[..|q|])[0] == Fold(s[0]) && FoldAll(q)[0] == Fold(q[0]);
          assert FoldAll(s[..|q|])[1..] == FoldAll(s[..|q|][1..]) && FoldAll(q)[1..] == FoldAll(q[1..]);
        }
      }
    }
  }

  lemma {:induction false} PercentMatchesAll(s: string)
    ensures Matches("%", s)
  {
    if s != "" {
      PercentMatchesAll(s[1..]);
    } else {
      assert "%"[1..] == "";
    }
  }

  /** A leading `%` lets the rest match from any position. */
  lemma {:induction false} PercentAnywhere(p: string, s: string)
    ensures Matches("%" + p, s) <==> exists i: nat :: i <= |s| && Matches(p, s[i..])
    decreases |s|
  {
    assert ("%" + p)[1..] == p && s[0..] == s;
    if s != "" {
      PercentAnywhere(p, s[1..]);
      if i: nat :| i <= |s| && Matches(p, s[i..]) {
        if i > 0 {
          assert s[1..][i - 1..] == s[i..];
        }
      }
      if i: nat :| i <= |s[1..]| && Matches(p, s[1..][i..]) {
        assert s[1..][i..] == s[i + 1..];
      }
    }
  }

  /** The browse pattern matches exactly the strings that contain the query, whatever
      wildcard or escape characters the query itself has. */
  lemma BrowsePatternExact(q: string, s: string)
    ensures Matches("%" + EscapeLike(q) + "%", s) <==> exists i: nat :: OccursAt(q, s, i)
  {
    var p := EscapeLike(q) + "%";
    assert "%" + EscapeLike(q) + "%" == "%" + p;
    PercentAnywhere(p, s);
    forall i: nat | i <= |s| ensures Matches(p, s[i..]) <==> OccursAt(q, s, i) {
      EscapedIsLiteral(q, "%", s[i..]);
      if i + |q| <= |s| {
        assert s[i..][..|q|] == s[i..i + |q|];
        PercentMatchesAll(s[i..][|q|..]);
      }
    }
  }
}
