/** The node of the newer copy (src/node.rs, src/key.rs): a key vector,
    an optional trailing node and a type tag. A key record carries its key,
    its value and the subtree to its left, so the two types are declared
    together. `Box` is a plain value here. Only the constructors have
    bodies in the source; `insert` and `remove` are not implemented there. */
module SrcNode {
  import opened Common

  /** `NodeType`: exactly the two tags `Internal` and `Leaf`. */
  datatype NodeType = Internal | Leaf

  /** `Node`: `keys`, the trailing `last_node` and the tag `type_`. */
  datatype Node<V> = Node(keys: seq<Key<V>>, last_node: Option<Node<V>>, type_: NodeType)

  /** `Key` of src/key.rs: key, value and the subtree it points at. */
  datatype Key<V> = Key(key: int, value: V, pointed_node: Option<Node<V>>)

  /** `Node::new(keys, last_node, type_)`. */
  function New<V>(keys: seq<Key<V>>, last_node: Option<Node<V>>, type_: NodeType): (r: Node<V>)
    ensures r.keys == keys && r.last_node == last_node && r.type_ == type_
  {
    Node(keys, last_node, type_)
  }

  /** `Default::default()`: a leaf with no keys and no trailing node, that
      is, `new` applied to nothing; it holds no entry. */
  function Default<V>(): (r: Node<V>)
    ensures r == New([], None, Leaf)
    ensures InOrder(r) == []
  {
    Node([], None, Leaf)
  }

  /** `boxed()`: moves the node to the heap without changing it. */
  function Boxed<V>(n: Node<V>): (r: Node<V>)
    ensures r == n && InOrder(r) == InOrder(n)
  {
    n
  }

  /** The (key, value) entries reachable from a node, in the order of the
      layout: each key's left subtree, then the key, and the trailing node
      last. */
  function InOrder<V>(n: Node<V>): seq<(int, V)>
    decreases n, 1
  {
    KeysInOrder(n.keys) + SubtreeInOrder(n.last_node)
  }

  /** The entries of an optional subtree. */
  function SubtreeInOrder<V>(p: Option<Node<V>>): seq<(int, V)>
    decreases p, 2
  {
    match p
    case None => []
    case Some(c) => InOrder(c)
  }

  /** The entries of one key: its left subtree, then the key itself. */
  function KeyInOrder<V>(k: Key<V>): seq<(int, V)>
    decreases k, 3
  {
    SubtreeInOrder(k.pointed_node) + [(k.key, k.value)]
  }

  /** The entries of a key vector with the subtrees its keys point at. */
  function KeysInOrder<V>(ks: seq<Key<V>>): seq<(int, V)>
    decreases ks, 0
  {
    if ks == [] then []
    else KeyInOrder(ks[0]) + KeysInOrder(ks[1..])
  }

  /** The entries of two key vectors laid side by side are those of the
      first followed by those of the second. */
  lemma {:induction false} KeysInOrderAppend<V>(a: seq<Key<V>>, b: seq<Key<V>>)
    ensures KeysInOrder(a + b) == KeysInOrder(a) + KeysInOrder(b)
    decreases |a|
  {
    if a == [] {
      assert a + b == b;
    } else {
      assert (a + b)[1..] == a[1..] + b;
      KeysInOrderAppend(a[1..], b);
    }
  }

  /** Every key of a vector contributes at least its own entry. */
  lemma {:induction false} KeysInOrderLength<V>(ks: seq<Key<V>>)
    ensures |KeysInOrder(ks)| >= |ks|
    decreases |ks|
  {
    if ks != [] {
      KeysInOrderLength(ks[1..]);
    }
  }
}
