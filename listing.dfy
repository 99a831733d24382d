/** `Model.find().sort({ createdAt: -1 })`: every document, newest first. */
module Listing {
  import opened Common

  /** Ordered by `stamp`, largest first. */
  ghost predicate NewestFirst<T>(s: seq<T>, stamp: T -> int)
  {
    forall i, j :: 0 <= i < j < |s| ==> stamp(s[i]) >= stamp(s[j])
  }

  /** The documents of `xs` reordered newest first (an insertion sort; the
      database's own order among equal stamps is unspecified). */
  method SortNewestFirst<T(==)>(xs: seq<T>, stamp: T -> int) returns (r: seq<T>)
    ensures multiset(r) == multiset(xs)
    ensures NewestFirst(r, stamp)
  {
    r := [];
    for n := 0 to |xs|
      invariant multiset(r) == multiset(xs[..n])
      invariant NewestFirst(r, stamp)
    {
      r := InsertNewestFirst(r, xs[n], stamp);
      assert xs[..n + 1] == xs[..n] + [xs[n]];
    }
    assert xs[..|xs|] == xs;
  }

  /** Puts `x` after every document at least as new as it. */
  method InsertNewestFirst<T(==)>(s: seq<T>, x: T, stamp: T -> int) returns (r: seq<T>)
    requires NewestFirst(s, stamp)
    ensures multiset(r) == multiset(s) + multiset{x}
    ensures NewestFirst(r, stamp)
  {
    var i := 0;
    while i < |s| && stamp(s[i]) >= stamp(x)
      invariant 0 <= i <= |s|
      invariant forall j :: 0 <= j < i ==> stamp(s[j]) >= stamp(x)
    {
      i := i + 1;
    }
    InsertAtKeepsOrder(s, x, i, stamp);
    r := s[..i] + [x] + s[i..];
    assert s == s[..i] + s[i..];
  }

  lemma InsertAtKeepsOrder<T>(s: seq<T>, x: T, i: nat, stamp: T -> int)
    requires i <= |s| && NewestFirst(s, stamp)
    requires forall j :: 0 <= j < i ==> stamp(s[j]) >= stamp(x)
    requires i < |s| ==> stamp(s[i]) < stamp(x)
    ensures NewestFirst(s[..i] + [x] + s[i..], stamp)
  {
    var r := s[..i] + [x] + s[i..];
    forall a, b | 0 <= a < b < |r|
      ensures stamp(r[a]) >= stamp(r[b])
    {
      if b < i {
        assert r[a] == s[a] && r[b] == s[b];
      } else if b == i {
        assert r[a] == s[a] && r[b] == x;
      } else if a < i {
        assert r[a] == s[a] && r[b] == s[b - 1];
      } else if a == i {
        assert r[a] == x && r[b] == s[b - 1];
        assert stamp(s[i]) >= stamp(s[b - 1]);
      } else {
        assert r[a] == s[a - 1] && r[b] == s[b - 1];
      }
    }
  }

  /** No element occurs twice. */
  ghost predicate Distinct<T>(s: seq<T>)
  {
    forall i, j :: 0 <= i < j < |s| ==> s[i] != s[j]
  }

  /** In a sequence without repetitions every element is counted at most once. */
  lemma {:induction false} DistinctCountsOnce<T>(s: seq<T>, x: T)
    requires Distinct(s)
    ensures multiset(s)[x] <= 1
  {
    if s != [] {
      assert s == [s[0]] + s[1..];
      assert Distinct(s[1..]) by {
        forall i, j | 0 <= i < j < |s[1..]|
          ensures s[1..][i] != s[1..][j]
        {
          assert s[1..][i] == s[i + 1] && s[1..][j] == s[j + 1];
        }
      }
      DistinctCountsOnce(s[1..], x);
      if x == s[0] {
        assert x !in s[1..] by {
          forall k | 0 <= k < |s[1..]|
            ensures s[1..][k] != x
          {
            assert s[1..][k] == s[k + 1];
          }
        }
      }
    }
  }

  /** An element found at two positions is counted at least twice. */
  lemma RepeatCountsTwice<T>(s: seq<T>, i: nat, j: nat)
    requires i < j < |s| && s[i] == s[j]
    ensures multiset(s)[s[i]] >= 2
  {
    assert s == s[..j] + s[j..];
    assert s[i] in s[..j];
    assert s[j] in s[j..];
    assert multiset(s) == multiset(s[..j]) + multiset(s[j..]);
  }

  /** A reordering of a sequence without repetitions has none either. */
  lemma DistinctPermutation<T>(s: seq<T>, t: seq<T>)
    requires Distinct(s) && multiset(t) == multiset(s)
    ensures Distinct(t)
  {
    forall i, j | 0 <= i < j < |t|
      ensures t[i] != t[j]
    {
      if t[i] == t[j] {
        RepeatCountsTwice(t, i, j);
        DistinctCountsOnce(s, t[i]);
      }
    }
  }

  /** The values of a map in no particular order, each taken from its own
      key: `keys` lists the key every value was read from, each key once. */
  method ValuesOf<V>(m: map<Id, V>) returns (s: seq<V>, ghost keys: seq<Id>)
    ensures |s| == |keys| == |m|
    ensures Distinct(keys)
    ensures forall i :: 0 <= i < |s| ==> keys[i] in m && s[i] == m[keys[i]]
    ensures forall id :: id in m ==> id in keys
    ensures forall id :: id in m ==> m[id] in s
    ensures forall i :: 0 <= i < |s| ==> exists id :: id in m && m[id] == s[i]
  {
    s, keys := [], [];
    var rest := m.Keys;
    while rest != {}
      invariant rest <= m.Keys
      invariant |s| == |keys| && |s| + |rest| == |m.Keys|
      invariant Distinct(keys)
      invariant forall i :: 0 <= i < |s| ==> keys[i] in m && keys[i] !in rest && s[i] == m[keys[i]]
      invariant forall id :: id in m && id !in rest ==> id in keys && m[id] in s
      decreases |rest|
    {
      var id :| id in rest;
      s, keys := s + [m[id]], keys + [id];
      rest := rest - {id};
    }
    assert |m.Keys| == |m|;
  }
}
