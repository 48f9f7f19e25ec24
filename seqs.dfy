/**
 * The LINQ operators the declone logic is written with (Where, Select,
 * SelectMany, Distinct), as functions over sequences with the properties
 * the rest of the model relies on.
 */
module Seqs {
  import opened Wrappers

  /** LINQ Where: the elements of s satisfying p, in their original order. */
  function Filter<T(!new)>(p: T -> bool, s: seq<T>): (r: seq<T>)
    ensures |r| <= |s|
    ensures forall x :: x in r <==> x in s && p(x)
  {
    if s == [] then []
    else if p(s[0]) then [s[0]] + Filter(p, s[1..])
    else Filter(p, s[1..])
  }

  /** Where distributes over concatenation: filtering keeps the relative order. */
  lemma {:induction false} FilterConcat<T(!new)>(p: T -> bool, a: seq<T>, b: seq<T>)
    ensures Filter(p, a + b) == Filter(p, a) + Filter(p, b)
  {
    if a == [] {
      assert a + b == b;
    } else {
      assert (a + b)[0] == a[0];
      assert (a + b)[1..] == a[1..] + b;
      FilterConcat(p, a[1..], b);
    }
  }

  /** Where removes nothing (not even duplicates) when every element satisfies p. */
  lemma {:induction false} FilterKeepsAll<T(!new)>(p: T -> bool, s: seq<T>)
    requires forall x :: x in s ==> p(x)
    ensures Filter(p, s) == s
  {
    if s != [] {
      assert s[0] in s;
      forall x | x in s[1..] ensures p(x) {
        assert x in s;
      }
      FilterKeepsAll(p, s[1..]);
      assert [s[0]] + s[1..] == s;
    }
  }

  /** LINQ Select. */
  function Map<T, U>(f: T -> U, s: seq<T>): (r: seq<U>)
    ensures |r| == |s|
    ensures forall i :: 0 <= i < |s| ==> r[i] == f(s[i])
  {
    if s == [] then [] else [f(s[0])] + Map(f, s[1..])
  }

  /** LINQ SelectMany with the identity selector: the buckets concatenated in order. */
  function Flatten<T(!new)>(buckets: seq<seq<T>>): (r: seq<T>)
    ensures forall x :: x in r <==> exists i :: 0 <= i < |buckets| && x in buckets[i]
  {
    if buckets == [] then []
    else
      var rest := Flatten(buckets[1..]);
      assert forall x :: x in rest <==> exists i :: 1 <= i < |buckets| && x in buckets[i] by {
        forall x | x in rest ensures exists i :: 1 <= i < |buckets| && x in buckets[i] {
          var j :| 0 <= j < |buckets[1..]| && x in buckets[1..][j];
          assert x in buckets[j + 1];
        }
        forall x, i | 1 <= i < |buckets| && x in buckets[i] ensures x in rest {
          assert x in buckets[1..][i - 1];
        }
      }
      buckets[0] + rest
  }

  /** SelectMany keeps bucket order: flattening distributes over concatenation. */
  lemma {:induction false} FlattenConcat<T(!new)>(a: seq<seq<T>>, b: seq<seq<T>>)
    ensures Flatten(a + b) == Flatten(a) + Flatten(b)
  {
    if a == [] {
      assert a + b == b;
    } else {
      assert (a + b)[0] == a[0];
      assert (a + b)[1..] == a[1..] + b;
      FlattenConcat(a[1..], b);
    }
  }

  /** The total number of elements over all buckets. */
  function TotalSize<T>(buckets: seq<seq<T>>): nat
  {
    if buckets == [] then 0 else |buckets[0]| + TotalSize(buckets[1..])
  }

  lemma {:induction false} FlattenSize<T(!new)>(buckets: seq<seq<T>>)
    ensures |Flatten(buckets)| == TotalSize(buckets)
  {
    if buckets != [] {
      FlattenSize(buckets[1..]);
    }
  }

  /** `Where(x => x != null)` over a sequence of possibly-null values. */
  function Somes<T(!new)>(s: seq<Option<T>>): (r: seq<T>)
    ensures |r| <= |s|
    ensures forall x :: x in r <==> Some(x) in s
  {
    if s == [] then []
    else
      var rest := Somes(s[1..]);
      assert forall x :: Some(x) in s <==> Some(x) == s[0] || Some(x) in s[1..] by {
        assert s == [s[0]] + s[1..];
      }
      match s[0]
      case Some(x) => [x] + rest
      case None => rest
  }

  /** The keys of the elements of s. */
  ghost function Keys<T, K>(key: T -> K, s: seq<T>): set<K>
  {
    set x | x in s :: key(x)
  }

  lemma KeysConcat<T, K>(key: T -> K, a: seq<T>, b: seq<T>)
    ensures Keys(key, a + b) == Keys(key, a) + Keys(key, b)
  {
    forall k | k in Keys(key, a + b) ensures k in Keys(key, a) + Keys(key, b) {
      var x :| x in a + b && key(x) == k;
    }
  }

  /**
   * LINQ Distinct with an equality comparer that compares key(x):
   * the first element of each key class, in order, skipping the keys
   * already in `seen`.
   */
  function DistinctBy<T(!new), K(==)>(key: T -> K, s: seq<T>, seen: set<K>): (r: seq<T>)
    ensures forall x :: x in r ==> x in s && key(x) !in seen
    ensures Keys(key, r) == Keys(key, s) - seen
    ensures forall i, j :: 0 <= i < j < |r| ==> key(r[i]) != key(r[j])
  {
    if s == [] then []
    else if key(s[0]) in seen then
      var rest := DistinctBy(key, s[1..], seen);
      assert Keys(key, s) == {key(s[0])} + Keys(key, s[1..]) by {
        assert s == [s[0]] + s[1..];
      }
      rest
    else
      var rest := DistinctBy(key, s[1..], seen + {key(s[0])});
      assert Keys(key, s) == {key(s[0])} + Keys(key, s[1..]) by {
        assert s == [s[0]] + s[1..];
      }
      assert forall i :: 0 <= i < |rest| ==> key(rest[i]) != key(s[0]) by {
        forall i | 0 <= i < |rest| ensures key(rest[i]) != key(s[0]) {
          assert rest[i] in rest;
        }
      }
      KeysConcat(key, [s[0]], rest);
      [s[0]] + rest
  }
}
