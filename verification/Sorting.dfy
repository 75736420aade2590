/** Stable insertion sort, standing for the library sort of the program. */
module Sorting {
  import opened Common

  /** `before(a, b)` holds when a may stand before b. */
  function Insert<T>(before: (T, T) -> bool, x: T, s: seq<T>): seq<T> {
    if s == [] || !before(s[0], x) then [x] + s else [s[0]] + Insert(before, x, s[1..])
  }

  function Sort<T>(before: (T, T) -> bool, s: seq<T>): seq<T> {
    if s == [] then [] else Insert(before, Last(s), Sort(before, Front(s)))
  }

  ghost predicate InOrder<T>(before: (T, T) -> bool, s: seq<T>) {
    forall i, j :: 0 <= i < j < |s| ==> before(s[i], s[j])
  }

  ghost predicate TotalPreorder<T(!new)>(before: (T, T) -> bool) {
    && (forall a, b :: before(a, b) || before(b, a))
    && (forall a, b, c :: before(a, b) && before(b, c) ==> before(a, c))
  }

  lemma {:induction false} InsertKeeps<T>(before: (T, T) -> bool, x: T, s: seq<T>)
    ensures multiset(Insert(before, x, s)) == multiset(s) + multiset{x}
  {
    if s != [] && before(s[0], x) {
      InsertKeeps(before, x, s[1..]);
      assert s == [s[0]] + s[1..];
    }
  }

  lemma {:induction false} SortKeeps<T>(before: (T, T) -> bool, s: seq<T>)
    ensures multiset(Sort(before, s)) == multiset(s)
    ensures forall x :: x in Sort(before, s) <==> x in s
  {
    if s != [] {
      SortKeeps(before, Front(s));
      InsertKeeps(before, Last(s), Sort(before, Front(s)));
      assert s == Front(s) + [Last(s)];
    }
    assert forall x :: x in Sort(before, s) <==> x in multiset(Sort(before, s));
  }

  lemma {:induction false} InsertInOrder<T(!new)>(before: (T, T) -> bool, x: T, s: seq<T>)
    requires TotalPreorder(before) && InOrder(before, s)
    ensures InOrder(before, Insert(before, x, s))
  {
    if s != [] && before(s[0], x) {
      var t := s[1..];
      InsertInOrder(before, x, t);
      InsertKeeps(before, x, t);
      var r := Insert(before, x, t);
      forall k | 0 <= k < |r| ensures before(s[0], r[k]) {
        assert r[k] in multiset(r);
        if r[k] != x {
          var j :| 0 <= j < |t| && t[j] == r[k];
          assert s[j + 1] == r[k];
        }
      }
    } else {
      forall j | 0 <= j < |s| ensures before(x, s[j]) {
        assert j > 0 ==> before(s[0], s[j]);
      }
    }
  }

  lemma {:induction false} SortInOrder<T(!new)>(before: (T, T) -> bool, s: seq<T>)
    requires TotalPreorder(before)
    ensures InOrder(before, Sort(before, s))
  {
    if s != [] {
      SortInOrder(before, Front(s));
      InsertInOrder(before, Last(s), Sort(before, Front(s)));
    }
  }

  // ----- stability -----

  /** The elements that may stand on either side of x. */
  ghost function Ties<T>(before: (T, T) -> bool, x: T, s: seq<T>): seq<T> {
    if s == [] then []
    else (if before(x, s[0]) && before(s[0], x) then [s[0]] else []) + Ties(before, x, s[1..])
  }

  lemma TiesHead<T>(before: (T, T) -> bool, x: T, s: seq<T>)
    requires s != []
    ensures Ties(before, x, s) ==
            (if before(x, s[0]) && before(s[0], x) then [s[0]] else []) + Ties(before, x, s[1..])
  {
  }

  lemma {:induction false} TiesConcat<T>(before: (T, T) -> bool, x: T, s: seq<T>, t: seq<T>)
    ensures Ties(before, x, s + t) == Ties(before, x, s) + Ties(before, x, t)
    decreases |s|
  {
    if s == [] {
      assert s + t == t;
    } else {
      TiesConcat(before, x, s[1..], t);
      assert (s + t)[1..] == s[1..] + t && (s + t)[0] == s[0];
      TiesHead(before, x, s);
      TiesHead(before, x, s + t);
      hide Ties;
      Assoc(if before(x, s[0]) && before(s[0], x) then [s[0]] else [], Ties(before, x, s[1..]), Ties(before, x, t));
    }
  }

  lemma {:induction false} NoTies<T>(before: (T, T) -> bool, x: T, s: seq<T>)
    requires forall y :: y in s ==> !before(y, x)
    ensures Ties(before, x, s) == []
  {
    if s != [] {
      assert s[0] in s && forall y :: y in s[1..] ==> y in s;
      NoTies(before, x, s[1..]);
    }
  }

  lemma {:induction false} InsertStable<T(!new)>(before: (T, T) -> bool, y: T, s: seq<T>, x: T)
    requires TotalPreorder(before) && InOrder(before, s)
    ensures Ties(before, x, Insert(before, y, s)) == Ties(before, x, s) + Ties(before, x, [y])
  {
    if s == [] {
      assert [y] + s == [y];
    } else if !before(s[0], y) {
      TiesConcat(before, x, [y], s);
      if before(x, y) && before(y, x) {
        forall z | z in s ensures !before(z, x) {
          var k :| 0 <= k < |s| && s[k] == z;
          assert before(s[0], z);
        }
        NoTies(before, x, s);
      } else {
        assert Ties(before, x, [y]) == [];
      }
    } else {
      InsertStable(before, y, s[1..], x);
      assert Insert(before, y, s)[1..] == Insert(before, y, s[1..]);
    }
  }

  /** Elements that the order does not separate keep their places among each other. */
  lemma {:induction false} SortStable<T(!new)>(before: (T, T) -> bool, s: seq<T>, x: T)
    requires TotalPreorder(before)
    ensures Ties(before, x, Sort(before, s)) == Ties(before, x, s)
  {
    if s != [] {
      SortStable(before, Front(s), x);
      SortInOrder(before, Front(s));
      InsertStable(before, Last(s), Sort(before, Front(s)), x);
      TiesConcat(before, x, Front(s), [Last(s)]);
      assert s == Front(s) + [Last(s)];
    }
  }

  // ----- sequences without repetition, as multisets -----

  lemma {:induction false} NoDupOnce<T>(s: seq<T>)
    requires NoDup(s)
    ensures forall x :: multiset(s)[x] <= 1
  {
    if s != [] {
      NoDupOnce(Front(s));
      assert s == Front(s) + [Last(s)] && Last(s) !in Front(s);
    }
  }

  lemma TwiceCounts<T>(s: seq<T>, i: nat, j: nat)
    requires i < j < |s| && s[i] == s[j]
    ensures multiset(s)[s[i]] >= 2
  {
    assert s == s[..j] + [s[j]] + s[j + 1..];
    assert s[i] in s[..j];
    assert multiset(s) == multiset(s[..j]) + multiset{s[j]} + multiset(s[j + 1..]);
  }

  lemma OnceNoDup<T>(s: seq<T>)
    requires forall x :: multiset(s)[x] <= 1
    ensures NoDup(s)
  {
    forall i, j | 0 <= i < j < |s| ensures s[i] != s[j] {
      if s[i] == s[j] {
        TwiceCounts(s, i, j);
      }
    }
  }

  /** Sorting repeats nothing. */
  lemma SortNoDup<T>(before: (T, T) -> bool, s: seq<T>)
    requires NoDup(s)
    ensures NoDup(Sort(before, s))
  {
    NoDupOnce(s);
    SortKeeps(before, s);
    OnceNoDup(Sort(before, s));
  }
}
