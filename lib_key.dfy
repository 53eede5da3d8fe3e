/** Operations of the key record in the older copy (lib/btree/node/key.rs).
    Equality and ordering look at the `key` field only; the value and the
    attached subtree never take part. Setting or clearing the subtree is an
    in-place field update in the source; here it is a function from the old
    record to the new one. */
module LibKey {
  import opened Common
  import opened LibTypes

  /** `PartialEq::eq`: two keys are equal when their `key` fields are. */
  function Eq<V>(a: Key<V>, b: Key<V>): (r: bool)
    ensures r <==> Cmp(a, b) == Equal
  {
    a.key == b.key
  }

  /** `Ord::cmp`: the ordering of the `key` fields. */
  function Cmp<V>(a: Key<V>, b: Key<V>): (r: Ordering)
    ensures r == Less <==> a.key < b.key
    ensures r == Equal <==> a.key == b.key
    ensures r == Greater <==> a.key > b.key
  {
    CompareInt(a.key, b.key)
  }

  /** `PartialOrd::partial_cmp`: always defined, and the same as `cmp`. */
  function PartialCmp<V>(a: Key<V>, b: Key<V>): (r: Option<Ordering>)
    ensures r.Some? && r.value == Cmp(a, b)
  {
    Some(Cmp(a, b))
  }

  /** `Key::new(key, value, pointed_node)`. */
  function New<V>(k: int, v: V, p: Option<Node<V>>): (r: Key<V>)
    ensures r.key == k && r.value == v && PointedNode(r) == p
  {
    Key(k, v, p)
  }

  /** `pointed_node()`: the attached subtree, if any. */
  function PointedNode<V>(k: Key<V>): (r: Option<Node<V>>)
    ensures r.None? <==> k.pointed_node.None?
    ensures r.Some? ==> r.value == k.pointed_node.value
  {
    match k.pointed_node
    case None => None
    case Some(n) => Some(n)
  }

  /** `set_pointed_node(n)`: attaches `n`, replacing whatever was there. */
  function SetPointedNode<V>(k: Key<V>, n: Node<V>): (r: Key<V>)
    ensures PointedNode(r) == Some(n)
    ensures r.key == k.key && r.value == k.value
  {
    k.(pointed_node := Some(n))
  }

  /** `unset_pointed_node()`: detaches the subtree and returns it
      (`mem::replace` with `None`). */
  function UnsetPointedNode<V>(k: Key<V>): (r: (Key<V>, Option<Node<V>>))
    ensures r.1 == PointedNode(k)
    ensures PointedNode(r.0) == None
    ensures r.0.key == k.key && r.0.value == k.value
  {
    (k.(pointed_node := None), k.pointed_node)
  }

  /** Equality ignores the value and the subtree of both operands. */
  lemma EqIgnoresPayload<V>(a: Key<V>, b: Key<V>, va: V, pa: Option<Node<V>>, vb: V, pb: Option<Node<V>>)
    ensures Eq(a, b) == Eq(New(a.key, va, pa), New(b.key, vb, pb))
    ensures Cmp(a, b) == Cmp(New(a.key, va, pa), New(b.key, vb, pb))
  {
  }

  /** `cmp` is antisymmetric and transitive, as `Ord` requires. */
  lemma CmpIsTotalOrder<V>(a: Key<V>, b: Key<V>, c: Key<V>)
    ensures Cmp(b, a) == Cmp(a, b).Reverse()
    ensures Cmp(a, b) != Greater && Cmp(b, c) != Greater ==> Cmp(a, c) != Greater
    ensures Cmp(a, b) == Less && Cmp(b, c) != Greater ==> Cmp(a, c) == Less
  {
  }

  /** Detaching twice: the second call finds nothing attached. */
  lemma UnsetTwice<V>(k: Key<V>)
    ensures UnsetPointedNode(UnsetPointedNode(k).0).1 == None
    ensures UnsetPointedNode(UnsetPointedNode(k).0).0 == UnsetPointedNode(k).0
  {
  }

  /** Attaching and then detaching returns the attached subtree and leaves
      the record as it would be with nothing attached. */
  lemma SetThenUnset<V>(k: Key<V>, n: Node<V>)
    ensures UnsetPointedNode(SetPointedNode(k, n)) == (UnsetPointedNode(k).0, Some(n))
  {
  }

  /** Detaching and re-attaching the same subtree restores the record. */
  lemma UnsetThenSet<V>(k: Key<V>)
    requires k.pointed_node.Some?
    ensures SetPointedNode(UnsetPointedNode(k).0, UnsetPointedNode(k).1.value) == k
  {
  }
}
