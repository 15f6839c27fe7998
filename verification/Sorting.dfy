/** Stand-in for std::sort: callers rely on its contract only, which is that the result
  * is some permutation of the input that is sorted by the key. */
module Sorting {
  type Key = (int, int, int)

  predicate KeyLeq(a: Key, b: Key) {
    a.0 < b.0 || (a.0 == b.0 && (a.1 < b.1 || (a.1 == b.1 && a.2 <= b.2)))
  }

  ghost predicate SortedBy<T>(items: seq<T>, key: T -> Key) {
    forall i, j :: 0 <= i < j < |items| ==> KeyLeq(key(items[i]), key(items[j]))
  }

  function Insert<T>(x: T, items: seq<T>, key: T -> Key): (r: seq<T>)
    ensures multiset(r) == multiset(items) + multiset{x}
  {
    if items == [] || KeyLeq(key(x), key(items[0])) then [x] + items
    else
      assert items == [items[0]] + items[1..];
      [items[0]] + Insert(x, items[1..], key)
  }

  lemma {:induction false} InsertSorted<T>(x: T, items: seq<T>, key: T -> Key)
    requires SortedBy(items, key)
    ensures SortedBy(Insert(x, items, key), key)
  {
    if items != [] && !KeyLeq(key(x), key(items[0])) {
      var rest := Insert(x, items[1..], key);
      InsertSorted(x, items[1..], key);
      forall y | y in rest
        ensures KeyLeq(key(items[0]), key(y))
      {
        assert y in multiset(rest);
        if y != x {
          assert y in multiset(items[1..]);
          assert y in items[1..];
        }
      }
    }
  }

  method Sort<T>(items: seq<T>, key: T -> Key) returns (sorted: seq<T>)
    ensures multiset(sorted) == multiset(items)
    ensures SortedBy(sorted, key)
  {
    sorted := [];
    for i := 0 to |items|
      invariant multiset(sorted) == multiset(items[..i])
      invariant SortedBy(sorted, key)
    {
      InsertSorted(items[i], sorted, key);
      sorted := Insert(items[i], sorted, key);
      assert items[..i + 1] == items[..i] + [items[i]];
    }
    assert items[..|items|] == items;
  }
}
