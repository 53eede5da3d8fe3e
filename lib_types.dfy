/** The two record types of the older copy of the tree (`lib/btree/`):
    a node is a sorted vector of keys plus an optional trailing node, and a
    key carries its value and an optional subtree. They refer to each other,
    so they are declared together. `Arc` and `Box` are plain values here. */
module LibTypes {
  import opened Common

  /** `Node` of lib/btree/node.rs: `keys` and the trailing `last_node`. */
  datatype Node<V> = Node(keys: seq<Key<V>>, last_node: Option<Node<V>>)

  /** `Key` of lib/btree/node/key.rs: the key, its value and the subtree
      it points at. */
  datatype Key<V> = Key(key: int, value: V, pointed_node: Option<Node<V>>)
}
