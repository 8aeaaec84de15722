/** A JavaScript `Map` with string keys: an association list in insertion
    order. `set` on a key already present replaces the value where the key
    stands; on a new key it appends. */
module OrderedMaps {
  import opened Wrappers

  type Entries<V> = seq<(string, V)>

  function Keys<V>(m: Entries<V>): (ks: seq<string>)
    ensures |ks| == |m| && forall i :: 0 <= i < |m| ==> ks[i] == m[i].0
  {
    seq(|m|, i requires 0 <= i < |m| => m[i].0)
  }

  /** `Array.from(m.values())`, in insertion order. */
  function Values<V>(m: Entries<V>): (vs: seq<V>)
    ensures |vs| == |m| && forall i :: 0 <= i < |m| ==> vs[i] == m[i].1
  {
    seq(|m|, i requires 0 <= i < |m| => m[i].1)
  }

  /** No key is stored twice (what a `Map` guarantees). */
  predicate UniqueKeys<V>(m: Entries<V>) {
    forall i, j :: 0 <= i < j < |m| ==> m[i].0 != m[j].0
  }

  /** The position of `k`, when it is a key. */
  function IndexOf<V>(m: Entries<V>, k: string): (i: nat)
    requires k in Keys(m)
    ensures i < |m| && m[i].0 == k
    ensures forall j :: 0 <= j < i ==> m[j].0 != k
  {
    if m[0].0 == k then 0
    else
      assert k in Keys(m[1..]) by { var j :| 0 <= j < |m| && Keys(m)[j] == k; assert Keys(m[1..])[j - 1] == k; }
      1 + IndexOf(m[1..], k)
  }

  /** `m.get(k)`: the value stored under `k`, or `undefined`. */
  function Get<V>(m: Entries<V>, k: string): (r: Option<V>)
    ensures r.None? <==> k !in Keys(m)
    ensures r.Some? ==> r.value == m[IndexOf(m, k)].1
  {
    if k in Keys(m) then Some(m[IndexOf(m, k)].1) else None
  }

  /** `m.set(k, v)`. */
  function Put<V>(m: Entries<V>, k: string, v: V): (r: Entries<V>)
    ensures k !in Keys(m) ==> r == m + [(k, v)]
    ensures k in Keys(m) ==>
      |r| == |m| && r[IndexOf(m, k)] == (k, v) &&
      forall i :: 0 <= i < |m| && i != IndexOf(m, k) ==> r[i] == m[i]
    decreases |m|
  {
    if m == [] then [(k, v)]
    else if m[0].0 == k then [(k, v)] + m[1..]
    else
      assert k in Keys(m) <==> k in Keys(m[1..]) by {
        if k in Keys(m) { var j :| 0 <= j < |m| && Keys(m)[j] == k; assert Keys(m[1..])[j - 1] == k; }
        if k in Keys(m[1..]) { var j :| 0 <= j < |m| - 1 && Keys(m[1..])[j] == k; assert Keys(m)[j + 1] == k; }
      }
      [m[0]] + Put(m[1..], k, v)
  }

  /** After `set`, the keys keep their order and a new key comes last. */
  lemma PutKeys<V>(m: Entries<V>, k: string, v: V)
    ensures Keys(Put(m, k, v)) == if k in Keys(m) then Keys(m) else Keys(m) + [k]
  {
    var r := Put(m, k, v);
    if k in Keys(m) {
      assert forall i :: 0 <= i < |m| ==> r[i].0 == m[i].0;
    }
  }

  /** `get` after `set`: the new value under `k`, every other key unaffected. */
  lemma PutGet<V>(m: Entries<V>, k: string, v: V, k': string)
    ensures Get(Put(m, k, v), k') == if k' == k then Some(v) else Get(m, k')
  {
    PutKeys(m, k, v);
    if k' in Keys(m) {
      PutGetPresent(m, k, v, k');
    } else if k' == k {
      assert Keys(Put(m, k, v))[|m|] == k;
    }
  }

  /** A key that was present keeps its position, so `get` finds the entry there. */
  lemma PutGetPresent<V>(m: Entries<V>, k: string, v: V, k': string)
    requires k' in Keys(m)
    requires Keys(Put(m, k, v)) == if k in Keys(m) then Keys(m) else Keys(m) + [k]
    ensures k' in Keys(Put(m, k, v)) && IndexOf(Put(m, k, v), k') == IndexOf(m, k')
  {
    var r := Put(m, k, v);
    var i := IndexOf(m, k');
    assert Keys(r)[i] == k';
  }

  /** `set` keeps the keys unique. */
  lemma PutUnique<V>(m: Entries<V>, k: string, v: V)
    requires UniqueKeys(m)
    ensures UniqueKeys(Put(m, k, v))
  {
    PutKeys(m, k, v);
    var r := Put(m, k, v);
    assert forall i :: 0 <= i < |r| ==> r[i].0 == Keys(r)[i];
  }
}
