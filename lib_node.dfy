/** The node of the older copy (lib/btree/node.rs): a key vector kept in
    key order plus an optional trailing node. `insert` places a key by
    binary search and splices it in, whether or not an equal key is
    already there. The capacity predicates are built on `MAXIMUM_KEYS`. */
module LibNode {
  import opened Common
  import opened LibTypes
  import LibKey

  /** The capacity constant of a node. */
  const MAXIMUM_KEYS: nat := 4

  /** Keys in non-decreasing order of their `key` field (equal keys may
      sit side by side, since `insert` admits duplicates). */
  predicate Sorted<V>(s: seq<Key<V>>) {
    forall i, j :: 0 <= i < j < |s| ==> s[i].key <= s[j].key
  }

  /** `Node::new()`: no keys and no trailing node. */
  function NewNode<V>(): (r: Node<V>)
    ensures KeysCount(r) == 0 && HasNoKeys(r) && IsLeaf(r) && ChildCount(r) == 0
    ensures Sorted(r.keys) && !Overflow(r) && !IsFull(r)
  {
    Node([], None)
  }

  /** `keys_count()`. */
  function KeysCount<V>(n: Node<V>): (r: nat)
    ensures r == |n.keys|
  {
    |n.keys|
  }

  /** `is_leaf()`: a node is a leaf when it has no trailing node. */
  function IsLeaf<V>(n: Node<V>): (r: bool)
    ensures r <==> n.last_node.None?
  {
    n.last_node.None?
  }

  /** `child_count()`: none for a leaf, one per key plus the trailing node
      otherwise. */
  function ChildCount<V>(n: Node<V>): (r: nat)
    ensures r == 0 <==> IsLeaf(n)
    ensures !IsLeaf(n) ==> r == KeysCount(n) + 1
  {
    if IsLeaf(n) then 0 else |n.keys| + 1
  }

  /** `overflow()`: more keys than the capacity. */
  function Overflow<V>(n: Node<V>): (r: bool)
    ensures r <==> KeysCount(n) > MAXIMUM_KEYS
    ensures r ==> IsFull(n)
  {
    |n.keys| > MAXIMUM_KEYS
  }

  /** `is_full()`: at least the capacity. */
  function IsFull<V>(n: Node<V>): (r: bool)
    ensures r <==> KeysCount(n) >= MAXIMUM_KEYS
  {
    |n.keys| >= MAXIMUM_KEYS
  }

  /** `is_empty()` as the source writes it: the same test as `is_full()`. */
  function IsEmpty<V>(n: Node<V>): (r: bool)
    ensures r == IsFull(n)
  {
    |n.keys| >= MAXIMUM_KEYS
  }

  /** The source's `is_empty()` calls a fresh node non-empty and a full
      node empty. */
  lemma IsEmptyMisreports<V>(k: Key<V>)
    ensures KeysCount(NewNode<V>()) == 0 && !IsEmpty(NewNode<V>())
    ensures var full := Node([k, k, k, k], None); KeysCount(full) == 4 && IsEmpty(full)
  {
  }

  /** What `is_empty()` evidently means: the node holds no key. */
  function HasNoKeys<V>(n: Node<V>): (r: bool)
    ensures r <==> KeysCount(n) == 0
    ensures r ==> !IsFull(n) && !Overflow(n)
  {
    |n.keys| == 0
  }

  /** `Vec::insert(i, x)`: `x` lands at index `i`, the elements before it
      stay put and the ones from `i` on move up by one. */
  function VecInsert<T>(s: seq<T>, i: nat, x: T): (r: seq<T>)
    requires i <= |s|
    ensures |r| == |s| + 1 && r[i] == x
    ensures forall j :: 0 <= j < i ==> r[j] == s[j]
    ensures forall j :: i < j < |r| ==> r[j] == s[j - 1]
  {
    s[..i] + [x] + s[i..]
  }

  /** Splicing adds exactly one occurrence of `x` and removes nothing. */
  lemma VecInsertMultiset<T>(s: seq<T>, i: nat, x: T)
    requires i <= |s|
    ensures multiset(VecInsert(s, i, x)) == multiset(s) + multiset{x}
  {
    calc {
      multiset(VecInsert(s, i, x));
      multiset(s[..i]) + multiset{x} + multiset(s[i..]);
      { assert s == s[..i] + s[i..]; }
      multiset(s) + multiset{x};
    }
  }

  /** Splicing a key at a position where everything before is not larger
      and everything after is not smaller keeps the vector sorted. */
  lemma VecInsertSorted<V>(s: seq<Key<V>>, i: nat, x: Key<V>)
    requires Sorted(s) && i <= |s|
    requires forall j :: 0 <= j < i ==> s[j].key <= x.key
    requires forall j :: i <= j < |s| ==> x.key <= s[j].key
    ensures Sorted(VecInsert(s, i, x))
  {
    var r := VecInsert(s, i, x);
    forall a, b | 0 <= a < b < |r| ensures r[a].key <= r[b].key {
      if b < i {
      } else if a < i && b == i {
      } else if a < i {
        assert r[b] == s[b - 1];
      } else if a == i {
        assert r[b] == s[b - 1];
      } else {
        assert r[a] == s[a - 1] && r[b] == s[b - 1];
      }
    }
  }

  /** `slice::binary_search` (Rust's standard library) with the key order of
      `Key::cmp`: `Ok(i)` names a position holding an equal key, `Err(i)`
      the position where the key would go. On a sorted vector `Err(i)`
      means that no equal key exists. */
  method BinarySearch<V>(keys: seq<Key<V>>, probe: Key<V>) returns (r: Result<nat, nat>)
    ensures r.Ok? ==> r.value < |keys| && LibKey.Eq(keys[r.value], probe)
    ensures r.Err? ==> r.error <= |keys|
    ensures r.Err? && Sorted(keys) ==>
      (forall j :: 0 <= j < r.error ==> keys[j].key < probe.key) &&
      (forall j :: r.error <= j < |keys| ==> probe.key < keys[j].key)
  {
    var left, right := 0, |keys|;
    while left < right
      invariant 0 <= left <= right <= |keys|
      invariant Sorted(keys) ==> forall j :: 0 <= j < left ==> keys[j].key < probe.key
      invariant Sorted(keys) ==> forall j :: right <= j < |keys| ==> probe.key < keys[j].key
      decreases right - left
    {
      var mid := left + (right - left) / 2;
      match LibKey.Cmp(keys[mid], probe)
      case Less => left := mid + 1;
      case Greater => right := mid;
      case Equal => return Ok(mid);
    }
    return Err(left);
  }

  /** A node being changed in place by its owner (`&mut Node`); its fields
      are the node's fields and `Snapshot` is the node value they make. */
  class NodeCell<V(==)> {
    var keys: seq<Key<V>>
    var last_node: Option<Node<V>>

    function Snapshot(): (n: Node<V>)
      reads this
      ensures n.keys == keys && n.last_node == last_node
    {
      Node(keys, last_node)
    }

    /** Takes ownership of `Node::new()`. */
    constructor ()
      ensures Snapshot() == NewNode()
    {
      keys := [];
      last_node := None;
    }

    /** `insert(key)`: binary-searches for `key` and splices it in at the
        index found, in the found and the not-found case alike. `at` is
        that index. */
    method Insert(key: Key<V>) returns (ghost at: nat)
      modifies this
      ensures last_node == old(last_node)
      ensures at <= |old(keys)| && keys == VecInsert(old(keys), at, key)
      ensures multiset(keys) == multiset(old(keys)) + multiset{key}
      ensures Sorted(old(keys)) ==> Sorted(keys)
      ensures Sorted(old(keys)) && (exists j :: 0 <= j < |old(keys)| && LibKey.Eq(old(keys)[j], key)) ==>
        at + 1 < |keys| && LibKey.Eq(keys[at + 1], key)
    {
      var search := BinarySearch(keys, key);
      match search
      case Err(index) =>
        at := index;
        if Sorted(keys) {
          VecInsertSorted(keys, index, key);
        }
        VecInsertMultiset(keys, index, key);
        keys := VecInsert(keys, index, key);
      case Ok(index) =>
        at := index;
        if Sorted(keys) {
          forall j | 0 <= j < index ensures keys[j].key <= key.key {
          }
          forall j | index <= j < |keys| ensures key.key <= keys[j].key {
          }
          VecInsertSorted(keys, index, key);
        }
        VecInsertMultiset(keys, index, key);
        keys := VecInsert(keys, index, key);
    }

    /** `insert_keys(ks)`: inserts the keys of `ks` one by one, in order. */
    method InsertKeys(ks: seq<Key<V>>)
      modifies this
      ensures last_node == old(last_node)
      ensures |keys| == |old(keys)| + |ks|
      ensures multiset(keys) == multiset(old(keys)) + multiset(ks)
      ensures Sorted(old(keys)) ==> Sorted(keys)
    {
      for i := 0 to |ks|
        invariant last_node == old(last_node)
        invariant |keys| == |old(keys)| + i
        invariant multiset(keys) == multiset(old(keys)) + multiset(ks[..i])
        invariant Sorted(old(keys)) ==> Sorted(keys)
      {
        ghost var at := Insert(ks[i]);
        assert ks[..i + 1] == ks[..i] + [ks[i]];
      }
      assert ks[..|ks|] == ks;
    }
  }
}
