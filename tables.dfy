/** Collections kept in insertion order (the order MongoDB returns documents
    in without a sort), and the two queries the lead-capture routes run on
    them: find the first document with a given key, delete by key. `key`
    reads the field the query filters on. */
module Tables {

  /** Position of the first element whose key is `k`, or -1: `findOne`. */
  method FindFirst<T, K(==)>(s: seq<T>, key: T -> K, k: K) returns (i: int)
    ensures -1 <= i < |s|
    ensures 0 <= i ==> key(s[i]) == k && forall j :: 0 <= j < i ==> key(s[j]) != k
    ensures i < 0 ==> forall j :: 0 <= j < |s| ==> key(s[j]) != k
  {
    i := 0;
    while i < |s|
      invariant 0 <= i <= |s|
      invariant forall j :: 0 <= j < i ==> key(s[j]) != k
    {
      if key(s[i]) == k {
        return;
      }
      i := i + 1;
    }
    i := -1;
  }

  /** The collection without the elements whose key is `k`, order kept. */
  function Without<T(==), K(==)>(s: seq<T>, key: T -> K, k: K): (r: seq<T>)
    ensures |r| <= |s|
    ensures forall j :: 0 <= j < |r| ==> key(r[j]) != k && r[j] in s
    ensures forall j :: 0 <= j < |s| && key(s[j]) != k ==> s[j] in r
  {
    if s == [] then []
    else if key(s[0]) == k then Without(s[1..], key, k)
    else [s[0]] + Without(s[1..], key, k)
  }

  /** No key occurs twice. */
  ghost predicate KeysDistinct<T, K>(s: seq<T>, key: T -> K)
  {
    forall i, j :: 0 <= i < j < |s| ==> key(s[i]) != key(s[j])
  }

  /** Without a key that occurs nowhere, nothing is removed. */
  lemma {:induction false} WithoutAbsent<T, K>(s: seq<T>, key: T -> K, k: K)
    requires forall j :: 0 <= j < |s| ==> key(s[j]) != k
    ensures Without(s, key, k) == s
  {
    if s != [] {
      WithoutAbsent(s[1..], key, k);
    }
  }

  /** When the key occurs only at position i, removing it is cutting out
      exactly that element. */
  lemma {:induction false} WithoutAt<T, K>(s: seq<T>, key: T -> K, k: K, i: nat)
    requires i < |s| && key(s[i]) == k
    requires forall j :: 0 <= j < |s| && j != i ==> key(s[j]) != k
    ensures Without(s, key, k) == s[..i] + s[i + 1..]
  {
    if i == 0 {
      WithoutAbsent(s[1..], key, k);
      assert s[..0] + s[1..] == s[1..];
    } else {
      var tail := s[1..];
      assert forall j :: 0 <= j < |tail| && j != i - 1 ==> key(tail[j]) != k by {
        forall j | 0 <= j < |tail| && j != i - 1
          ensures key(tail[j]) != k
        {
          assert tail[j] == s[j + 1];
        }
      }
      WithoutAt(tail, key, k, i - 1);
      assert tail[..i - 1] == s[1..i] && tail[i..] == s[i + 1..];
      assert [s[0]] + s[1..i] == s[..i];
    }
  }

  /** With distinct keys, the key at position i occurs nowhere else. */
  lemma KeyOnlyAt<T, K>(s: seq<T>, key: T -> K, i: nat)
    requires i < |s| && KeysDistinct(s, key)
    ensures forall j :: 0 <= j < |s| && j != i ==> key(s[j]) != key(s[i])
  {
    forall j | 0 <= j < |s| && j != i
      ensures key(s[j]) != key(s[i])
    {
      if j < i {
        assert key(s[j]) != key(s[i]);
      } else {
        assert key(s[i]) != key(s[j]);
      }
    }
  }

  /** Cutting out one element keeps every key distinct. */
  lemma RemoveAtKeepsDistinct<T, K>(s: seq<T>, key: T -> K, i: nat)
    requires i < |s| && KeysDistinct(s, key)
    ensures KeysDistinct(s[..i] + s[i + 1..], key)
  {
    var r := s[..i] + s[i + 1..];
    forall a, b | 0 <= a < b < |r|
      ensures key(r[a]) != key(r[b])
    {
      var a' := if a < i then a else a + 1;
      var b' := if b < i then b else b + 1;
      assert r[a] == s[a'] && r[b] == s[b'];
    }
  }

  /** Appending an element whose key is new keeps every key distinct. */
  lemma AppendKeepsDistinct<T, K>(s: seq<T>, key: T -> K, x: T)
    requires KeysDistinct(s, key)
    requires forall j :: 0 <= j < |s| ==> key(s[j]) != key(x)
    ensures KeysDistinct(s + [x], key)
  {
    var r := s + [x];
    forall a, b | 0 <= a < b < |r|
      ensures key(r[a]) != key(r[b])
    {
      assert r[a] == s[a];
    }
  }
}
