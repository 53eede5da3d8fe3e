/** Operations of the key record in the newer copy (src/key.rs): a fresh
    key has no subtree, and equality and ordering look at the `key` field
    only. */
module SrcKey {
  import opened Common
  import opened SrcNode

  /** `Key::new(key, value)`: no subtree attached. */
  function New<V>(k: int, v: V): (r: Key<V>)
    ensures r.key == k && r.value == v && r.pointed_node == None
    ensures KeyInOrder(r) == [(k, v)]
  {
    Key(k, v, None)
  }

  /** `PartialEq::eq`: two keys are equal when their `key` fields are. */
  function Eq<V>(a: Key<V>, b: Key<V>): (r: bool)
    ensures r <==> Cmp(a, b) == Equal
  {
    a.key == b.key
  }

  /** `Ord::cmp`: the ordering of the `key` fields. */
  function Cmp<V>(a: Key<V>, b: Key<V>): (r: Ordering)
    ensures r == Less <==> a.key < b.key
    ensures r == Equal <==> a.key == b.key
    ensures r == Greater <==> a.key > b.key
  {
    CompareInt(a.key, b.key)
  }

  /** `PartialOrd::partial_cmp`: `Some` of the ordering of the `key`
      fields, which is what `cmp` gives. */
  function PartialCmp<V>(a: Key<V>, b: Key<V>): (r: Option<Ordering>)
    ensures r == Some(Cmp(a, b))
  {
    Some(CompareInt(a.key, b.key))
  }

  /** Equality and ordering ignore the value and the subtree. */
  lemma EqIgnoresPayload<V>(a: Key<V>, b: Key<V>, va: V, pa: Option<Node<V>>, vb: V, pb: Option<Node<V>>)
    ensures Eq(a, b) == Eq(Key(a.key, va, pa), Key(b.key, vb, pb))
    ensures Cmp(a, b) == Cmp(Key(a.key, va, pa), Key(b.key, vb, pb))
  {
  }
}
