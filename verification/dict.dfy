/** Python dictionaries as the acquisition code uses them: keys keep their
    insertion order and assigning to an existing key replaces its value in
    place. */
module Dict {
  import opened Tree

  type Entries<K, V> = seq<(K, V)>

  function Keys<K, V>(d: Entries<K, V>): (ks: seq<K>)
    ensures |ks| == |d|
    ensures forall k | 0 <= k < |d| :: ks[k] == d[k].0
  {
    if |d| == 0 then [] else [d[0].0] + Keys(d[1..])
  }

  /** `d[key] = v`. */
  function Assign<K(==), V>(d: Entries<K, V>, key: K, v: V): (r: Entries<K, V>)
    ensures key in Keys(d) ==> Keys(r) == Keys(d)
    ensures key !in Keys(d) ==> r == d + [(key, v)]
    ensures |r| == if key in Keys(d) then |d| else |d| + 1
    ensures forall k | 0 <= k < |d| ::
      r[k] == if d[k].0 == key && AbsentBefore(d, key, k) then (key, v) else d[k]
  {
    if |d| == 0 then [(key, v)]
    else if d[0].0 == key then [(key, v)] + d[1..]
    else
      assert Keys(d) == [d[0].0] + Keys(d[1..]);
      AbsentBeforeTail(d, key);
      [d[0]] + Assign(d[1..], key, v)
  }

  /** No entry before position `k` has key `key`. */
  predicate AbsentBefore<K(==), V>(d: Entries<K, V>, key: K, k: nat)
    requires k <= |d|
  {
    forall j | 0 <= j < k :: d[j].0 != key
  }

  lemma AbsentBeforeTail<K, V>(d: Entries<K, V>, key: K)
    requires |d| > 0 && d[0].0 != key
    ensures forall k | 1 <= k <= |d| :: AbsentBefore(d, key, k) == AbsentBefore(d[1..], key, k - 1)
  {
    forall k | 1 <= k <= |d|
      ensures AbsentBefore(d, key, k) == AbsentBefore(d[1..], key, k - 1)
    {
      assert forall j | 1 <= j < k :: d[j] == d[1..][j - 1];
    }
  }

  /** The keys `keyOf` gives the values `vs`. */
  function KeysOf<K, V>(vs: seq<V>, keyOf: V -> K): (ks: seq<K>)
    ensures |ks| == |vs|
    ensures forall k | 0 <= k < |vs| :: ks[k] == keyOf(vs[k])
  {
    if |vs| == 0 then [] else [keyOf(vs[0])] + KeysOf(vs[1..], keyOf)
  }

  /** The entries for the values `vs`, each under its own key. */
  function Pairs<K, V>(vs: seq<V>, keyOf: V -> K): (r: Entries<K, V>)
    ensures |r| == |vs|
    ensures forall k | 0 <= k < |vs| :: r[k] == (keyOf(vs[k]), vs[k])
  {
    if |vs| == 0 then [] else [(keyOf(vs[0]), vs[0])] + Pairs(vs[1..], keyOf)
  }

  /** Assigns each value of `vs` under its own key, in order. */
  function Store<K(==), V>(d: Entries<K, V>, vs: seq<V>, keyOf: V -> K): Entries<K, V>
    decreases |vs|
  {
    if |vs| == 0 then d else Store(Assign(d, keyOf(vs[0]), vs[0]), vs[1..], keyOf)
  }

  lemma {:induction false} KeysAppend<K, V>(a: Entries<K, V>, b: Entries<K, V>)
    ensures Keys(a + b) == Keys(a) + Keys(b)
    decreases |a|
  {
    if |a| > 0 {
      assert (a + b)[1..] == a[1..] + b;
      KeysAppend(a[1..], b);
    } else {
      assert a + b == b;
    }
  }

  lemma KeysOfPairs<K, V>(vs: seq<V>, keyOf: V -> K)
    ensures Keys(Pairs(vs, keyOf)) == KeysOf(vs, keyOf)
  {
  }

  lemma {:induction false} KeysOfAppend<K, V>(a: seq<V>, b: seq<V>, keyOf: V -> K)
    ensures KeysOf(a + b, keyOf) == KeysOf(a, keyOf) + KeysOf(b, keyOf)
    decreases |a|
  {
    if |a| > 0 {
      assert (a + b)[1..] == a[1..] + b;
      KeysOfAppend(a[1..], b, keyOf);
    } else {
      assert a + b == b;
    }
  }

  /** Storing a value under a new key moves that key from the pending
      list to the dictionary. */
  lemma StoreOneKeys<K, V>(d: Entries<K, V>, vs: seq<V>, keyOf: V -> K)
    requires |vs| > 0 && keyOf(vs[0]) !in Keys(d)
    ensures Keys(Assign(d, keyOf(vs[0]), vs[0])) + KeysOf(vs[1..], keyOf) == Keys(d) + KeysOf(vs, keyOf)
  {
    var key := keyOf(vs[0]);
    var rest := KeysOf(vs[1..], keyOf);
    KeysAppend(d, [(key, vs[0])]);
    assert Keys([(key, vs[0])]) == [key];
    assert KeysOf(vs, keyOf) == [key] + rest;
    AppendAssociative(Keys(d), [key], rest);
  }

  /** With no key repeated, every assignment appends a new entry, so the
      dictionary lists the values in the order they were stored. */
  lemma {:induction false} StoreFresh<K, V>(d: Entries<K, V>, vs: seq<V>, keyOf: V -> K)
    requires Distinct(Keys(d) + KeysOf(vs, keyOf))
    ensures Store(d, vs, keyOf) == d + Pairs(vs, keyOf)
    decreases |vs|
  {
    if |vs| > 0 {
      var key := keyOf(vs[0]);
      DistinctNotIn(Keys(d), KeysOf(vs, keyOf), 0);
      StoreOneKeys(d, vs, keyOf);
      var next := Assign(d, key, vs[0]);
      StoreFresh(next, vs[1..], keyOf);
      AppendAssociative(d, [(key, vs[0])], Pairs(vs[1..], keyOf));
    }
  }
}
