/**
 * Python dictionaries, which remember the order in which their keys were
 * first inserted: a sequence of (key, value) pairs with distinct keys.
 * Assigning to an existing key keeps its position; a new key goes last.
 */
module PyDict {
  import opened Wrappers

  type Dict<K, V> = seq<(K, V)>

  predicate DistinctKeys<K(==), V>(d: Dict<K, V>)
  {
    forall i, j :: 0 <= i < j < |d| ==> d[i].0 != d[j].0
  }

  function Keys<K, V>(d: Dict<K, V>): (r: seq<K>)
    ensures |r| == |d| && forall i :: 0 <= i < |d| ==> r[i] == d[i].0
  {
    if d == [] then [] else [d[0].0] + Keys(d[1..])
  }

  /** The position of key k, if present. */
  function Find<K(==), V>(d: Dict<K, V>, k: K): (r: Option<nat>)
    ensures r.None? <==> forall i :: 0 <= i < |d| ==> d[i].0 != k
    ensures r.Some? ==> r.value < |d| && d[r.value].0 == k
  {
    if d == [] then None
    else if d[0].0 == k then Some(0)
    else match Find(d[1..], k)
      case None => None
      case Some(j) => Some(j + 1)
  }

  /** `k in d`. */
  predicate Contains<K(==), V>(d: Dict<K, V>, k: K)
  {
    Find(d, k).Some?
  }

  /** `d.get(k, default)`; also `d[k]` of a `defaultdict` whose factory gives `default`. */
  function Get<K(==), V>(d: Dict<K, V>, k: K, default: V): V
  {
    match Find(d, k)
    case None => default
    case Some(j) => d[j].1
  }

  /** `d[k] = v`. */
  function Put<K(==), V>(d: Dict<K, V>, k: K, v: V): (r: Dict<K, V>)
    ensures Find(d, k).Some? ==> r == d[Find(d, k).value := (k, v)]
    ensures Find(d, k).None? ==> r == d + [(k, v)]
  {
    match Find(d, k)
    case None => d + [(k, v)]
    case Some(j) => d[j := (k, v)]
  }

  /** `d.setdefault(k, v)`: the existing value, or v after inserting it. */
  function SetDefault<K(==), V>(d: Dict<K, V>, k: K, v: V): (Dict<K, V>, V)
  {
    match Find(d, k)
    case None => (d + [(k, v)], v)
    case Some(j) => (d, d[j].1)
  }

  /** `d[k] += 1` on a `defaultdict(int)`. */
  function Increment<K(==)>(d: Dict<K, nat>, k: K): Dict<K, nat>
  {
    Put<K, nat>(d, k, Get<K, nat>(d, k, 0) + 1)
  }

  /** In a dictionary with distinct keys, Find gives the only position of a key. */
  lemma FindUnique<K, V>(d: Dict<K, V>, k: K, i: nat)
    requires DistinctKeys(d) && i < |d| && d[i].0 == k
    ensures Find(d, k) == Some(i)
  {
  }

  /** After `d[k] = v`, k reads v and every other key reads as before; keys stay distinct. */
  lemma PutGet<K, V>(d: Dict<K, V>, k: K, v: V, k': K, default: V)
    requires DistinctKeys(d)
    ensures DistinctKeys(Put(d, k, v))
    ensures Get(Put(d, k, v), k', default) == if k' == k then v else Get(d, k', default)
    ensures Contains(Put(d, k, v), k') <==> k' == k || Contains(d, k')
  {
    var r := Put(d, k, v);
    match Find(d, k)
    case None =>
      if k' == k {
        FindUnique(r, k, |d|);
      } else {
        assert Find(r, k') == Find(d, k') by {
          if Find(d, k').Some? {
            FindUnique(r, k', Find(d, k').value);
          }
        }
      }
    case Some(j) =>
      if k' == k {
        FindUnique(r, k, j);
      } else if Find(d, k').Some? {
        FindUnique(r, k', Find(d, k').value);
      }
  }

  /** Assignment keeps the key order, adding a new key at the end. */
  lemma PutKeys<K, V>(d: Dict<K, V>, k: K, v: V)
    ensures Keys(Put(d, k, v)) == if Contains(d, k) then Keys(d) else Keys(d) + [k]
  {
  }

  /**
   * `setdefault` never overwrites: a present key keeps its value and the
   * dictionary is unchanged; an absent key is appended with the given value.
   */
  lemma SetDefaultSpec<K, V>(d: Dict<K, V>, k: K, v: V)
    requires DistinctKeys(d)
    ensures var (r, x) := SetDefault(d, k, v);
      && DistinctKeys(r)
      && x == Get(r, k, v)
      && (Contains(d, k) ==> r == d && x == Get(d, k, v))
      && (!Contains(d, k) ==> r == d + [(k, v)] && x == v)
  {
    if !Contains(d, k) {
      FindUnique(d + [(k, v)], k, |d|);
    }
  }

  /** Count of k in a list. */
  function Count<K(==)>(s: seq<K>, k: K): nat
  {
    if s == [] then 0 else (if s[0] == k then 1 else 0) + Count(s[1..], k)
  }

  /** Counting over a concatenation adds the counts of its parts. */
  lemma {:induction false} CountAppend<K>(xs: seq<K>, ys: seq<K>, k: K)
    ensures Count(xs + ys, k) == Count(xs, k) + Count(ys, k)
  {
    if xs == [] {
      assert xs + ys == ys;
    } else {
      assert (xs + ys)[1..] == xs[1..] + ys;
      CountAppend(xs[1..], ys, k);
    }
  }

  /** `for k in ks: d[k] += 1`. */
  function IncrementAll<K(==)>(d: Dict<K, nat>, ks: seq<K>): Dict<K, nat>
    decreases ks
  {
    if ks == [] then d else IncrementAll(Increment(d, ks[0]), ks[1..])
  }

  /** Counting a list of keys into a `defaultdict(int)` adds each key's multiplicity. */
  lemma IncrementAllCounts<K>(d: Dict<K, nat>, ks: seq<K>, k: K)
    requires DistinctKeys(d)
    ensures DistinctKeys(IncrementAll(d, ks))
    ensures Get<K, nat>(IncrementAll(d, ks), k, 0) == Get<K, nat>(d, k, 0) + Count(ks, k)
  {
    IncrementAllDistinct(d, ks);
    IncrementAllGet(d, ks, k);
  }

  lemma {:induction false} IncrementAllDistinct<K>(d: Dict<K, nat>, ks: seq<K>)
    requires DistinctKeys(d)
    ensures DistinctKeys(IncrementAll(d, ks))
    decreases ks
  {
    if ks != [] {
      IncrementGet(d, ks[0], ks[0]);
      IncrementAllDistinct(Increment(d, ks[0]), ks[1..]);
    }
  }

  lemma {:induction false} IncrementAllGet<K>(d: Dict<K, nat>, ks: seq<K>, k: K)
    ensures Get<K, nat>(IncrementAll(d, ks), k, 0) == Get<K, nat>(d, k, 0) + Count(ks, k)
    decreases ks
  {
    if ks != [] {
      GetPut<K, nat>(d, ks[0], Get<K, nat>(d, ks[0], 0) + 1, k, 0);
      IncrementAllGet(Increment(d, ks[0]), ks[1..], k);
    }
  }

  /** Assignment only changes the value read at its own key, whether or not the keys are distinct. */
  lemma GetPut<K, V>(d: Dict<K, V>, k: K, v: V, k': K, default: V)
    ensures Get(Put(d, k, v), k', default) == if k' == k then v else Get(d, k', default)
  {
    match Find(d, k)
    case None =>
      FindAppend(d, (k, v), k');
    case Some(j) =>
      FindSameKeys(d, d[j := (k, v)], k');
  }

  /** Find reads only the keys. */
  lemma {:induction false} FindSameKeys<K, V>(d: Dict<K, V>, e: Dict<K, V>, k: K)
    requires |d| == |e| && forall i :: 0 <= i < |d| ==> d[i].0 == e[i].0
    ensures Find(d, k) == Find(e, k)
  {
    if d != [] {
      FindSameKeys(d[1..], e[1..], k);
    }
  }

  /** Appending a pair finds it only when the key was absent. */
  lemma {:induction false} FindAppend<K, V>(d: Dict<K, V>, p: (K, V), k: K)
    ensures Find(d + [p], k) == if Find(d, k).Some? then Find(d, k) else if p.0 == k then Some(|d|) else None
  {
    if d != [] {
      assert (d + [p])[1..] == d[1..] + [p];
      FindAppend(d[1..], p, k);
    }
  }

  /** `d[x] += 1` adds one to x's count and leaves every other key's count alone. */
  lemma IncrementGet<K>(d: Dict<K, nat>, x: K, k: K)
    requires DistinctKeys(d)
    ensures DistinctKeys(Increment(d, x))
    ensures Get<K, nat>(Increment(d, x), k, 0) == Get<K, nat>(d, k, 0) + (if x == k then 1 else 0)
  {
    PutGet<K, nat>(d, x, Get<K, nat>(d, x, 0) + 1, k, 0);
  }
}
