/**
  Insertion-ordered dictionaries. The source keeps the catalogue and each family's
  style table in .NET Dictionary objects that are only ever added to, so their
  enumeration order (what `.First()` sees) is the order of insertion.
 */
module AssocList {
  import opened Wrappers

  /** The entries of a dictionary, oldest first. */
  type AList<K, V> = seq<(K, V)>

  function KeySet<K(==), V>(l: AList<K, V>): set<K> {
    set i | 0 <= i < |l| :: l[i].0
  }

  /** The dictionary invariant: no key is stored twice. */
  predicate UniqueKeys<K(==), V>(l: AList<K, V>) {
    forall i, j :: 0 <= i < j < |l| ==> l[i].0 != l[j].0
  }

  /** TryGetValue: the value stored under `k`, if any. */
  function Lookup<K(==), V(==)>(l: AList<K, V>, k: K): (r: Option<V>)
    ensures r.None? <==> k !in KeySet(l)
    ensures r.Some? ==> (k, r.value) in l
    decreases |l|
  {
    if |l| == 0 then None
    else if l[0].0 == k then Some(l[0].1)
    else
      assert forall e :: e in l[1..] ==> e in l;
      assert forall e :: e in l && e.0 == k ==> e in l[1..];
      Lookup(l[1..], k)
  }

  /** Looking a key up in a concatenation finds it in the older part first. */
  lemma {:induction false} LookupAppend<K, V>(l: AList<K, V>, m: AList<K, V>, k: K)
    ensures Lookup(l + m, k) == if k in KeySet(l) then Lookup(l, k) else Lookup(m, k)
    decreases |l|
  {
    if |l| > 0 {
      assert (l + m)[1..] == l[1..] + m;
      if l[0].0 != k {
        LookupAppend(l[1..], m, k);
        assert k in KeySet(l) <==> k in KeySet(l[1..]) by {
          assert forall e :: e in l <==> e == l[0] || e in l[1..];
        }
      }
    } else {
      assert l + m == m;
    }
  }

  /** With unique keys, every stored entry is what a lookup of its key returns. */
  lemma {:induction false} LookupStored<K, V>(l: AList<K, V>, i: int)
    requires UniqueKeys(l)
    requires 0 <= i < |l|
    ensures Lookup(l, l[i].0) == Some(l[i].1)
    decreases i
  {
    if i > 0 {
      assert l[1..][i - 1] == l[i];
      LookupStored(l[1..], i - 1);
    }
  }

  /** Dictionary.Add: None (the source throws) when the key is already present. */
  function Add<K(!new,==), V(==)>(l: AList<K, V>, k: K, v: V): (r: Option<AList<K, V>>)
    ensures r.None? <==> k in KeySet(l)
    ensures r.Some? ==> l <= r.value && KeySet(r.value) == KeySet(l) + {k}
    ensures r.Some? && UniqueKeys(l) ==> UniqueKeys(r.value)
    ensures r.Some? ==> Lookup(r.value, k) == Some(v)
    ensures r.Some? ==> forall x :: x != k ==> Lookup(r.value, x) == Lookup(l, x)
  {
    if k in KeySet(l) then None
    else
      var r := l + [(k, v)];
      assert forall x :: Lookup(r, x) == if x in KeySet(l) then Lookup(l, x) else Lookup([(k, v)], x) by {
        forall x { LookupAppend(l, [(k, v)], x); }
      }
      assert forall i :: 0 <= i < |l| ==> l[i] in l;
      Some(r)
  }
}
