/** A stable sort by a key that is compared lexicographically, for the library sorts of
    the modelled code (Python's sort with a key, Rust's Vec::sort). */
module Sorting {
  import Lex

  function Insert<T(!new)>(x: T, s: seq<T>, key: T -> seq<int>): (r: seq<T>)
    ensures |r| == |s| + 1
  {
    if s == [] || Lex.Leq(key(x), key(s[0])) then [x] + s else [s[0]] + Insert(x, s[1..], key)
  }

  function SortBy<T(!new)>(s: seq<T>, key: T -> seq<int>): (r: seq<T>)
    ensures |r| == |s|
  {
    if s == [] then [] else Insert(s[0], SortBy(s[1..], key), key)
  }

  predicate Sorted<T(!new)>(s: seq<T>, key: T -> seq<int>) {
    forall i, j :: 0 <= i < j < |s| ==> Lex.Leq(key(s[i]), key(s[j]))
  }

  predicate StrictlySorted<T(!new)>(s: seq<T>, key: T -> seq<int>) {
    forall i, j :: 0 <= i < j < |s| ==> Lex.Less(key(s[i]), key(s[j]))
  }

  predicate DistinctKeys<T(!new)>(s: seq<T>, key: T -> seq<int>) {
    forall i, j :: 0 <= i < j < |s| ==> key(s[i]) != key(s[j])
  }

  lemma LeqTransitive(a: seq<int>, b: seq<int>, c: seq<int>)
    requires Lex.Leq(a, b) && Lex.Leq(b, c)
    ensures Lex.Leq(a, c)
  {
    if a != b && b != c { Lex.Transitive(a, b, c); }
  }

  lemma {:induction false} InsertKeeps<T(!new)>(x: T, s: seq<T>, key: T -> seq<int>)
    requires Sorted(s, key)
    ensures Sorted(Insert(x, s, key), key)
    ensures multiset(Insert(x, s, key)) == multiset(s) + multiset{x}
    ensures forall y :: y in Insert(x, s, key) <==> y == x || y in s
  {
    if s == [] {
    } else if Lex.Leq(key(x), key(s[0])) {
      forall j | 0 <= j < |s|
        ensures Lex.Leq(key(x), key(s[j]))
      {
        if j > 0 { LeqTransitive(key(x), key(s[0]), key(s[j])); }
      }
    } else {
      Lex.Total(key(x), key(s[0]));
      InsertKeeps(x, s[1..], key);
      var r := Insert(x, s[1..], key);
      assert s == [s[0]] + s[1..];
      forall j | 0 <= j < |r|
        ensures Lex.Leq(key(s[0]), key(r[j]))
      {
        assert r[j] in r;
        if r[j] != x {
          var k :| 0 <= k < |s[1..]| && s[1..][k] == r[j];
          assert s[k + 1] == r[j];
        }
      }
    }
  }

  /** Sorting permutes and sorts. */
  lemma {:induction false} SortByMeaning<T(!new)>(s: seq<T>, key: T -> seq<int>)
    ensures Sorted(SortBy(s, key), key)
    ensures multiset(SortBy(s, key)) == multiset(s)
    ensures forall y :: y in SortBy(s, key) <==> y in s
  {
    if s != [] {
      SortByMeaning(s[1..], key);
      InsertKeeps(s[0], SortBy(s[1..], key), key);
      assert s == [s[0]] + s[1..];
    }
  }

  lemma {:induction false} InsertDistinct<T(!new)>(x: T, s: seq<T>, key: T -> seq<int>)
    requires StrictlySorted(s, key) && forall i :: 0 <= i < |s| ==> key(s[i]) != key(x)
    ensures StrictlySorted(Insert(x, s, key), key)
  {
    if s == [] {
    } else if Lex.Leq(key(x), key(s[0])) {
      forall j | 0 <= j < |s|
        ensures Lex.Less(key(x), key(s[j]))
      {
        if j > 0 { Lex.Transitive(key(x), key(s[0]), key(s[j])); }
      }
    } else {
      Lex.Total(key(x), key(s[0]));
      InsertDistinct(x, s[1..], key);
      assert Sorted(s[1..], key);
      InsertKeeps(x, s[1..], key);
      var r := Insert(x, s[1..], key);
      forall j | 0 <= j < |r|
        ensures Lex.Less(key(s[0]), key(r[j]))
      {
        assert r[j] in r;
        if r[j] != x {
          var k :| 0 <= k < |s[1..]| && s[1..][k] == r[j];
          assert s[k + 1] == r[j];
        }
      }
    }
  }

  lemma {:induction false} SortByStrict<T(!new)>(s: seq<T>, key: T -> seq<int>)
    requires DistinctKeys(s, key)
    ensures StrictlySorted(SortBy(s, key), key)
  {
    if s != [] {
      SortByStrict(s[1..], key);
      SortByMeaning(s[1..], key);
      var r := SortBy(s[1..], key);
      forall i | 0 <= i < |r|
        ensures key(r[i]) != key(s[0])
      {
        assert r[i] in s[1..];
        var k :| 0 <= k < |s[1..]| && s[1..][k] == r[i];
        assert s[k + 1] == r[i];
      }
      InsertDistinct(s[0], r, key);
    }
  }

  /** A set of elements has at most one strictly sorted sequence. */
  lemma {:induction false} StrictlySortedUnique<T(!new)>(a: seq<T>, b: seq<T>, key: T -> seq<int>)
    requires StrictlySorted(a, key) && StrictlySorted(b, key)
    requires forall x :: x in a <==> x in b
    ensures a == b
  {
    assert b != [] ==> b[0] in b;
    if a != [] {
      assert a[0] in a;
      var j :| 0 <= j < |b| && b[j] == a[0];
      var i :| 0 <= i < |a| && a[i] == b[0];
      if j > 0 && i > 0 { Lex.Asymmetric(key(a[0]), key(b[0])); }
      assert a[0] == b[0];
      forall x
        ensures x in a[1..] <==> x in b[1..]
      {
        Rest(a, x, key);
        Rest(b, x, key);
      }
      StrictlySortedUnique(a[1..], b[1..], key);
      assert a == [a[0]] + a[1..] && b == [b[0]] + b[1..];
    }
  }

  lemma Rest<T(!new)>(s: seq<T>, x: T, key: T -> seq<int>)
    requires s != [] && StrictlySorted(s, key)
    ensures x in s[1..] <==> x in s && x != s[0]
  {
    Lex.Irreflexive(key(s[0]));
    assert s == [s[0]] + s[1..];
    if x in s[1..] {
      var k :| 0 <= k < |s[1..]| && s[1..][k] == x;
      assert s[k + 1] == x;
    }
  }

  /** Sorting what is sorted changes nothing. */
  lemma SortedIsFixed<T(!new)>(s: seq<T>, key: T -> seq<int>)
    requires StrictlySorted(s, key)
    ensures SortBy(s, key) == s
  {
    forall i, j | 0 <= i < j < |s|
      ensures key(s[i]) != key(s[j])
    {
      Lex.Irreflexive(key(s[i]));
    }
    SortByStrict(s, key);
    SortByMeaning(s, key);
    StrictlySortedUnique(SortBy(s, key), s, key);
  }
}
