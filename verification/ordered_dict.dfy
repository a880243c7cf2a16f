/** A Python `dict` as the scraper uses it: key/value pairs kept in insertion order.
    Assigning to a present key replaces its value in place; a new key goes last. */
module OrderedDict {
  import opened Wrappers

  type Dict<K, V> = seq<(K, V)>

  ghost predicate KeysUnique<K, V>(d: Dict<K, V>) {
    forall i, j :: 0 <= i < j < |d| ==> d[i].0 != d[j].0
  }

  function Keys<K, V>(d: Dict<K, V>): (ks: seq<K>)
    ensures |ks| == |d|
    ensures forall i :: 0 <= i < |d| ==> ks[i] == d[i].0
  {
    seq(|d|, i requires 0 <= i < |d| => d[i].0)
  }

  /** Position of the first pair whose key is `k`. */
  function IndexOf<K(==), V>(d: Dict<K, V>, k: K): (r: Option<nat>)
    ensures r.Some? ==> r.value < |d| && d[r.value].0 == k
    ensures r.Some? ==> forall j :: 0 <= j < r.value ==> d[j].0 != k
    ensures r.None? ==> forall j :: 0 <= j < |d| ==> d[j].0 != k
  {
    if |d| == 0 then None
    else if d[0].0 == k then Some(0)
    else match IndexOf(d[1..], k)
      case None => None
      case Some(j) => Some(j + 1)
  }

  /** `d.get(k)`. */
  function Get<K(==), V>(d: Dict<K, V>, k: K): (r: Option<V>)
    ensures r.Some? <==> k in Keys(d)
  {
    match IndexOf(d, k)
    case None => None
    case Some(i) => Some(d[i].1)
  }

  /** `d[k] = v`. */
  function Put<K(==), V>(d: Dict<K, V>, k: K, v: V): Dict<K, V> {
    match IndexOf(d, k)
    case Some(i) => d[i := (k, v)]
    case None => d + [(k, v)]
  }

  /** After `d[k] = v` the key reads back `v`, every other key reads as before, the key
      order is unchanged or grows by `k` at the end, and keys stay distinct. */
  lemma PutSpec<K, V>(d: Dict<K, V>, k: K, v: V)
    ensures Get(Put(d, k, v), k) == Some(v)
    ensures forall k' :: k' != k ==> Get(Put(d, k, v), k') == Get(d, k')
    ensures Keys(Put(d, k, v)) == if k in Keys(d) then Keys(d) else Keys(d) + [k]
    ensures KeysUnique(d) ==> KeysUnique(Put(d, k, v))
  {
    var r := Put(d, k, v);
    match IndexOf(d, k)
    case Some(i) =>
      assert Keys(r) == Keys(d);
      assert IndexOf(r, k) == Some(i);
      forall k' | k' != k
        ensures Get(r, k') == Get(d, k')
      {
        GetSameKeys(d, r, k', i);
      }
    case None =>
      assert k !in Keys(d);
      FirstIndex(r, k, |d|);
      forall k' | k' != k
        ensures Get(r, k') == Get(d, k')
      {
        GetPrefix(d, (k, v), k');
      }
  }

  lemma GetSameKeys<K, V>(d: Dict<K, V>, r: Dict<K, V>, k': K, i: nat)
    requires |r| == |d| && i < |d|
    requires forall j :: 0 <= j < |d| ==> r[j].0 == d[j].0
    requires forall j :: 0 <= j < |d| && j != i ==> r[j] == d[j]
    requires d[i].0 != k'
    ensures Get(r, k') == Get(d, k')
  {
    match IndexOf(d, k')
    case None =>
    case Some(j) =>
      FirstIndex(r, k', j);
  }

  lemma GetPrefix<K, V>(d: Dict<K, V>, p: (K, V), k': K)
    requires p.0 != k'
    ensures Get(d + [p], k') == Get(d, k')
  {
    var r := d + [p];
    match IndexOf(d, k')
    case None =>
    case Some(j) =>
      FirstIndex(r, k', j);
  }

  lemma FirstIndex<K, V>(d: Dict<K, V>, k: K, j: nat)
    requires j < |d| && d[j].0 == k
    requires forall i :: 0 <= i < j ==> d[i].0 != k
    ensures IndexOf(d, k) == Some(j)
  {
  }
}
