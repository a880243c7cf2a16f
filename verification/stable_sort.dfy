/** Python's `sorted(xs, key=...)`: a stable sort by an integer key, written as an
    insertion sort over decorated items. `reverse=True` is a stable sort on the negated
    key, because Python keeps equal-key items in their original order either way. */
module StableSort {
  import opened Seqs

  datatype Keyed<T> = Keyed(key: int, item: T)

  ghost predicate SortedByKey<T>(s: seq<Keyed<T>>) {
    forall i, j :: 0 <= i < j < |s| ==> s[i].key <= s[j].key
  }

  /** The items of `s` whose key is `k`, in their order in `s`. */
  function WithKey<T>(s: seq<Keyed<T>>, k: int): seq<Keyed<T>> {
    if s == [] then [] else (if s[0].key == k then [s[0]] else []) + WithKey(s[1..], k)
  }

  function Items<T>(s: seq<Keyed<T>>): (r: seq<T>)
    ensures |r| == |s|
    ensures forall i :: 0 <= i < |s| ==> r[i] == s[i].item
  {
    seq(|s|, i requires 0 <= i < |s| => s[i].item)
  }

  /** Places `x` after every item whose key is not larger. */
  function Insert<T>(x: Keyed<T>, s: seq<Keyed<T>>): seq<Keyed<T>> {
    if s == [] then [x]
    else if x.key < s[0].key then [x] + s
    else [s[0]] + Insert(x, s[1..])
  }

  function Sort<T>(s: seq<Keyed<T>>): seq<Keyed<T>> {
    if s == [] then [] else Insert(s[|s| - 1], Sort(s[..|s| - 1]))
  }

  lemma {:induction false} InsertMultiset<T>(x: Keyed<T>, s: seq<Keyed<T>>)
    ensures multiset(Insert(x, s)) == multiset(s) + multiset{x}
    decreases |s|
  {
    if s != [] && x.key >= s[0].key {
      InsertMultiset(x, s[1..]);
      assert s == [s[0]] + s[1..];
    }
  }

  lemma {:induction false} InsertBounded<T>(x: Keyed<T>, s: seq<Keyed<T>>, b: int)
    requires x.key >= b
    requires forall i :: 0 <= i < |s| ==> s[i].key >= b
    ensures forall i :: 0 <= i < |Insert(x, s)| ==> Insert(x, s)[i].key >= b
    decreases |s|
  {
    if s != [] && x.key >= s[0].key {
      InsertBounded(x, s[1..], b);
    }
  }

  lemma {:induction false} InsertSorted<T>(x: Keyed<T>, s: seq<Keyed<T>>)
    requires SortedByKey(s)
    ensures SortedByKey(Insert(x, s))
    decreases |s|
  {
    if s != [] && x.key >= s[0].key {
      InsertSorted(x, s[1..]);
      InsertBounded(x, s[1..], s[0].key);
    }
  }

  lemma {:induction false} WithKeyAppend<T>(a: seq<Keyed<T>>, x: Keyed<T>, k: int)
    ensures WithKey(a + [x], k) == WithKey(a, k) + (if x.key == k then [x] else [])
    decreases |a|
  {
    if a != [] {
      assert (a + [x])[1..] == a[1..] + [x];
      WithKeyAppend(a[1..], x, k);
    }
  }

  lemma {:induction false} WithKeyAbove<T>(s: seq<Keyed<T>>, k: int)
    requires forall i :: 0 <= i < |s| ==> s[i].key > k
    ensures WithKey(s, k) == []
    decreases |s|
  {
    if s != [] {
      WithKeyAbove(s[1..], k);
    }
  }

  lemma WithKeyCons<T>(a: Keyed<T>, t: seq<Keyed<T>>, k: int)
    ensures WithKey([a] + t, k) == (if a.key == k then [a] else []) + WithKey(t, k)
  {
    assert ([a] + t)[1..] == t;
  }

  /** Inserting before a sorted sequence whose keys are all larger. */
  lemma InsertWithKeyFront<T>(x: Keyed<T>, s: seq<Keyed<T>>, k: int)
    requires SortedByKey(s) && s != [] && x.key < s[0].key
    ensures WithKey(Insert(x, s), k) == WithKey(s, k) + (if x.key == k then [x] else [])
  {
    WithKeyCons(x, s, k);
    if x.key == k {
      assert forall i :: 0 <= i < |s| ==> s[i].key > k;
      WithKeyAbove(s, k);
    }
  }

  lemma {:induction false} InsertWithKey<T>(x: Keyed<T>, s: seq<Keyed<T>>, k: int)
    requires SortedByKey(s)
    ensures WithKey(Insert(x, s), k) == WithKey(s, k) + (if x.key == k then [x] else [])
    decreases |s|
  {
    if s == [] {
      WithKeyCons(x, [], k);
    } else if x.key < s[0].key {
      InsertWithKeyFront(x, s, k);
    } else {
      assert SortedByKey(s[1..]);
      InsertWithKey(x, s[1..], k);
      InsertWithKeyBehind(x, s, k);
    }
  }

  /** Inserting behind the head: the head keeps its place in front. */
  lemma InsertWithKeyBehind<T>(x: Keyed<T>, s: seq<Keyed<T>>, k: int)
    requires s != [] && x.key >= s[0].key
    requires WithKey(Insert(x, s[1..]), k) == WithKey(s[1..], k) + (if x.key == k then [x] else [])
    ensures WithKey(Insert(x, s), k) == WithKey(s, k) + (if x.key == k then [x] else [])
  {
    var rest := s[1..];
    var head := if s[0].key == k then [s[0]] else [];
    assert WithKey(Insert(x, s), k) == head + WithKey(Insert(x, rest), k) by {
      assert Insert(x, s) == [s[0]] + Insert(x, rest);
      WithKeyCons(s[0], Insert(x, rest), k);
    }
    assert WithKey(s, k) == head + WithKey(rest, k) by {
      assert s == [s[0]] + rest;
      WithKeyCons(s[0], rest, k);
    }
    AppendAssoc(head, WithKey(rest, k), if x.key == k then [x] else []);
  }

  /** The result is ordered by key, holds exactly the input items, and items that share a
      key keep their input order (stability). */
  lemma {:induction false} SortSpec<T>(s: seq<Keyed<T>>)
    ensures SortedByKey(Sort(s))
    ensures multiset(Sort(s)) == multiset(s)
    ensures forall k :: WithKey(Sort(s), k) == WithKey(s, k)
    decreases |s|
  {
    if s != [] {
      var init := s[..|s| - 1];
      var x := s[|s| - 1];
      SortSpec(init);
      InsertSorted(x, Sort(init));
      InsertMultiset(x, Sort(init));
      assert s == init + [x];
      forall k
        ensures WithKey(Sort(s), k) == WithKey(s, k)
      {
        InsertWithKey(x, Sort(init), k);
        WithKeyAppend(init, x, k);
      }
    }
  }

  lemma SortLength<T>(s: seq<Keyed<T>>)
    ensures |Sort(s)| == |s|
  {
    SortSpec(s);
    assert |multiset(Sort(s))| == |multiset(s)|;
  }

  lemma {:induction false} InsertItems<T>(x: Keyed<T>, s: seq<Keyed<T>>)
    ensures multiset(Items(Insert(x, s))) == multiset(Items(s)) + multiset{x.item}
    decreases |s|
  {
    if s == [] {
    } else if x.key < s[0].key {
      assert Items([x] + s) == [x.item] + Items(s);
    } else {
      InsertItems(x, s[1..]);
      assert Items([s[0]] + Insert(x, s[1..])) == [s[0].item] + Items(Insert(x, s[1..]));
      assert Items(s) == [s[0].item] + Items(s[1..]);
    }
  }

  /** Sorting permutes the undecorated items as well. */
  lemma {:induction false} SortItems<T>(s: seq<Keyed<T>>)
    ensures multiset(Items(Sort(s))) == multiset(Items(s))
    decreases |s|
  {
    if s != [] {
      var init := s[..|s| - 1];
      SortItems(init);
      InsertItems(s[|s| - 1], Sort(init));
      assert Items(s) == Items(init) + [s[|s| - 1].item];
    }
  }
}
