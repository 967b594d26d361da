/** The ascending sort by a numeric key that the original obtains from the
    built-in, stable Array.prototype.sort with the comparator (x, y) => x.key - y.key. */
module Sorting {

  datatype Keyed<T> = Keyed(item: T, key: real)

  predicate SortedByKey<T>(s: seq<Keyed<T>>)
  {
    forall i, j :: 0 <= i < j < |s| ==> s[i].key <= s[j].key
  }

  /** Places x after every element whose key is not larger (so equal keys keep their order). */
  function Insert<T>(x: Keyed<T>, s: seq<Keyed<T>>): seq<Keyed<T>>
    decreases |s|
  {
    if s == [] || x.key < s[0].key then [x] + s
    else [s[0]] + Insert(x, s[1..])
  }

  /** Stable insertion sort, taking the input elements from first to last. */
  function SortByKey<T>(s: seq<Keyed<T>>): seq<Keyed<T>>
    decreases |s|
  {
    if s == [] then [] else Insert(s[|s| - 1], SortByKey(s[..|s| - 1]))
  }

  predicate KeysAtLeast<T>(s: seq<Keyed<T>>, b: real)
  {
    forall k :: 0 <= k < |s| ==> b <= s[k].key
  }

  lemma {:induction false} InsertKeepsBound<T>(x: Keyed<T>, s: seq<Keyed<T>>, b: real)
    requires KeysAtLeast(s, b) && b <= x.key
    ensures KeysAtLeast(Insert(x, s), b)
    decreases |s|
  {
    if s != [] && s[0].key <= x.key {
      InsertKeepsBound(x, s[1..], b);
    }
  }

  lemma {:induction false} InsertPermutes<T>(x: Keyed<T>, s: seq<Keyed<T>>)
    ensures multiset(Insert(x, s)) == multiset(s) + multiset{x}
    ensures |Insert(x, s)| == |s| + 1
    decreases |s|
  {
    if s != [] && s[0].key <= x.key {
      InsertPermutes(x, s[1..]);
      assert s == [s[0]] + s[1..];
    }
  }

  lemma {:induction false} InsertSorted<T>(x: Keyed<T>, s: seq<Keyed<T>>)
    requires SortedByKey(s)
    ensures SortedByKey(Insert(x, s))
    decreases |s|
  {
    if s != [] && s[0].key <= x.key {
      InsertSorted(x, s[1..]);
      InsertKeepsBound(x, s[1..], s[0].key);
    }
  }

  /** The sort yields its input, rearranged, in ascending key order. */
  lemma {:induction false} SortByKeyCorrect<T>(s: seq<Keyed<T>>)
    ensures SortedByKey(SortByKey(s))
    ensures multiset(SortByKey(s)) == multiset(s)
    ensures |SortByKey(s)| == |s|
    decreases |s|
  {
    if s != [] {
      var n := |s| - 1;
      SortByKeyCorrect(s[..n]);
      InsertSorted(s[n], SortByKey(s[..n]));
      InsertPermutes(s[n], SortByKey(s[..n]));
      assert s == s[..n] + [s[n]];
    }
  }
}
