/** Plain JavaScript objects used as ordered string-keyed maps: `for (key in obj)`
    visits keys in insertion order, and assigning to an existing key keeps its
    position and replaces its value. Integer-like keys, which JavaScript visits
    first, do not arise for XML names and are not modelled. */
module Objects {
  import opened Wrappers

  type Object<V> = seq<(string, V)>

  /** A JavaScript object never holds the same key twice. */
  ghost predicate DistinctKeys<V>(o: Object<V>) {
    forall i, j :: 0 <= i < j < |o| ==> o[i].0 != o[j].0
  }

  ghost predicate HasKey<V>(o: Object<V>, k: string) {
    exists i :: 0 <= i < |o| && o[i].0 == k
  }

  /** Position of the first entry for `k`. */
  function KeyIndex<V>(o: Object<V>, k: string): (r: Option<nat>)
    ensures r.Some? ==> r.value < |o| && o[r.value].0 == k
    ensures r.Some? ==> forall j :: 0 <= j < r.value ==> o[j].0 != k
    ensures r.None? <==> !HasKey(o, k)
  {
    if |o| == 0 then None
    else if o[0].0 == k then Some(0)
    else match KeyIndex(o[1..], k)
      case None =>
        assert forall j :: 1 <= j < |o| ==> o[j] == o[1..][j - 1];
        None
      case Some(i) => Some(i + 1)
  }

  /** `obj[k]`, None standing for `undefined`. */
  function Get<V>(o: Object<V>, k: string): Option<V>
  {
    match KeyIndex(o, k)
    case None => None
    case Some(i) => Some(o[i].1)
  }

  /** The first position holding `k` is the one `KeyIndex` finds. */
  lemma KeyIndexAt<V>(o: Object<V>, k: string, i: nat)
    requires i < |o| && o[i].0 == k
    requires forall j :: 0 <= j < i ==> o[j].0 != k
    ensures KeyIndex(o, k) == Some(i)
  {
    var r := KeyIndex(o, k);
    assert r.Some? by {
      assert HasKey(o, k);
    }
    assert !(r.value < i);
    assert !(i < r.value);
  }

  /** Objects with the same keys at the same positions find every key at the same position. */
  lemma SameKeys<V>(o: Object<V>, r: Object<V>)
    requires |r| == |o| && forall i :: 0 <= i < |o| ==> r[i].0 == o[i].0
    ensures forall k :: KeyIndex(r, k) == KeyIndex(o, k)
  {
    forall k
      ensures KeyIndex(r, k) == KeyIndex(o, k)
    {
      match KeyIndex(o, k)
      case Some(i) =>
        KeyIndexAt(r, k, i);
      case None =>
        assert !HasKey(r, k);
    }
  }

  lemma AppendNewKey<V>(o: Object<V>, k: string, v: V)
    requires !HasKey(o, k)
    ensures KeyIndex(o + [(k, v)], k) == Some(|o|)
    ensures forall k' :: k' != k ==> KeyIndex(o + [(k, v)], k') == KeyIndex(o, k')
  {
    var r := o + [(k, v)];
    assert forall j :: 0 <= j < |o| ==> r[j] == o[j];
    assert forall j :: 0 <= j < |o| ==> o[j].0 != k;
    KeyIndexAt(r, k, |o|);
    forall k' | k' != k
      ensures KeyIndex(r, k') == KeyIndex(o, k')
    {
      match KeyIndex(o, k')
      case Some(j) =>
        KeyIndexAt(r, k', j);
      case None =>
        assert !HasKey(r, k');
    }
  }

  /** `obj[k] = v`: an existing key keeps its place, a new one goes last. */
  function Put<V>(o: Object<V>, k: string, v: V): (r: Object<V>)
    ensures Get(r, k) == Some(v)
    ensures forall k' :: k' != k ==> Get(r, k') == Get(o, k')
    ensures !HasKey(o, k) ==> r == o + [(k, v)]
    ensures HasKey(o, k) ==> |r| == |o| && forall i :: 0 <= i < |o| ==> r[i].0 == o[i].0
    ensures DistinctKeys(o) ==> DistinctKeys(r)
  {
    match KeyIndex(o, k)
    case None =>
      AppendNewKey(o, k, v);
      o + [(k, v)]
    case Some(i) =>
      var r := o[..i] + [(k, v)] + o[i + 1..];
      assert forall j :: 0 <= j < |o| && j != i ==> r[j] == o[j];
      SameKeys(o, r);
      r
  }

  /** After `obj[k] = v` the object has the keys it had, and `k`. */
  lemma PutKeys<V>(o: Object<V>, k: string, v: V)
    ensures forall k' :: HasKey(Put(o, k, v), k') <==> HasKey(o, k') || k' == k
  {
    forall k'
      ensures HasKey(Put(o, k, v), k') <==> HasKey(o, k') || k' == k
    {
      assert HasKey(Put(o, k, v), k') <==> Get(Put(o, k, v), k').Some?;
      assert HasKey(o, k') <==> Get(o, k').Some?;
    }
  }
}
