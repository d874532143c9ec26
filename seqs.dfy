/** Operations of `java.util.List` that the collections below rely on. */
module Seqs {

  /** No element occurs twice. */
  predicate NoDuplicates<T(==)>(s: seq<T>)
  {
    forall i, j :: 0 <= i < j < |s| ==> s[i] != s[j]
  }

  /** `List.indexOf`: the index of the first occurrence of `x`, or -1. */
  function IndexOf<T(==)>(s: seq<T>, x: T): (r: int)
    ensures -1 <= r < |s|
    ensures r == -1 <==> x !in s
    ensures 0 <= r ==> s[r] == x && x !in s[..r]
  {
    if s == [] then -1
    else if s[0] == x then 0
    else
      var k := IndexOf(s[1..], x);
      assert k >= 0 ==> s[1..][..k] == s[1..k + 1];
      if k == -1 then -1 else k + 1
  }

  /** `List.remove(Object)`: drops the first occurrence of `x`, if any. */
  function RemoveFirst<T(==)>(s: seq<T>, x: T): seq<T>
  {
    var i := IndexOf(s, x);
    if i < 0 then s else s[..i] + s[i + 1..]
  }

  /** What `List.remove(Object)` leaves: the list without its first `x`, one `x` fewer. */
  lemma RemoveFirstSpec<T>(s: seq<T>, x: T)
    ensures x !in s ==> RemoveFirst(s, x) == s
    ensures x in s ==> exists i :: 0 <= i < |s| && s[i] == x && x !in s[..i] && RemoveFirst(s, x) == s[..i] + s[i + 1..]
    ensures multiset(RemoveFirst(s, x)) == multiset(s) - multiset{x}
  {
    var i := IndexOf(s, x);
    if i >= 0 {
      assert s == s[..i] + [s[i]] + s[i + 1..];
    }
  }

  /** Removing from a list without duplicates removes the element entirely and keeps the others unique. */
  lemma RemoveFirstNoDuplicates<T>(s: seq<T>, x: T)
    requires NoDuplicates(s)
    ensures NoDuplicates(RemoveFirst(s, x))
    ensures x !in RemoveFirst(s, x)
    ensures forall y :: y in RemoveFirst(s, x) <==> y in s && y != x
  {
    if x in s {
      var i := IndexOf(s, x);
      assert RemoveFirst(s, x) == s[..i] + s[i + 1..];
      DropNoDuplicates(s, i);
    }
  }

  /** Dropping the element at `i` from a list without duplicates drops exactly that element. */
  lemma DropNoDuplicates<T>(s: seq<T>, i: nat)
    requires NoDuplicates(s) && i < |s|
    ensures NoDuplicates(s[..i] + s[i + 1..])
    ensures forall y :: y in s[..i] + s[i + 1..] <==> y in s && y != s[i]
  {
    var r := s[..i] + s[i + 1..];
    forall a | 0 <= a < |r|
      ensures r[a] == s[if a < i then a else a + 1] && r[a] != s[i]
    {
      var a' := if a < i then a else a + 1;
      assert r[a] == s[a'] && a' != i;
    }
    forall y | y in s && y != s[i]
      ensures y in r
    {
      var j :| 0 <= j < |s| && s[j] == y;
      var j' := if j < i then j else j - 1;
      assert r[j'] == y;
    }
    forall a, b | 0 <= a < b < |r|
      ensures r[a] != r[b]
    {
      assert r[a] == s[if a < i then a else a + 1];
      assert r[b] == s[if b < i then b else b + 1];
    }
  }

  /** Inserting an element that is not there yet keeps a sequence free of duplicates. */
  lemma InsertNoDuplicates<T>(s: seq<T>, index: int, x: T)
    requires NoDuplicates(s) && x !in s && 0 <= index <= |s|
    ensures NoDuplicates(s[..index] + [x] + s[index..])
    ensures forall y :: y in s[..index] + [x] + s[index..] <==> y in s || y == x
  {
    var t := s[..index] + [x] + s[index..];
    assert s == s[..index] + s[index..];
    forall i, j | 0 <= i < j < |t|
      ensures t[i] != t[j]
    {
      if i == index {
        assert t[j] == s[j - 1];
      } else if j == index {
        assert t[i] == s[i];
      } else {
        var i' := if i < index then i else i - 1;
        var j' := if j < index then j else j - 1;
        assert t[i] == s[i'] && t[j] == s[j'];
      }
    }
  }

  /** Removing never introduces an element. */
  lemma RemoveFirstSubset<T>(s: seq<T>, x: T)
    ensures forall y :: y in RemoveFirst(s, x) ==> y in s
  {
    RemoveFirstSpec(s, x);
    forall y | y in RemoveFirst(s, x)
      ensures y in s
    {
      assert y in multiset(RemoveFirst(s, x));
    }
  }

  /** A list without duplicates has as many elements as the set of its elements. */
  lemma {:induction false} NoDuplicatesCardinality<T>(s: seq<T>)
    requires NoDuplicates(s)
    ensures |Elements(s)| == |s|
  {
    if s != [] {
      var t := s[1..];
      assert NoDuplicates(t);
      NoDuplicatesCardinality(t);
      assert Elements(s) == {s[0]} + Elements(t);
      assert s[0] !in Elements(t);
    }
  }

  /** Dropping `i + 1` elements of a list with one more in front drops `i` of the list. */
  lemma ConsSlice<T>(x: T, s: seq<T>, i: nat)
    requires i <= |s|
    ensures ([x] + s)[i + 1..] == s[i..]
  {
  }

  /** The set of elements of a list. */
  function Elements<T>(s: seq<T>): set<T>
  {
    set x | x in s
  }
}
