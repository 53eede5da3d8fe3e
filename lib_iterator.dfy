/** The two cursors of the older copy (lib/btree/node/iterator.rs). Each
    borrows a node and keeps an `index`; every `next` reads the cursor and
    moves it on. `KeysStep` and `ChildStep` say what one call does, and the
    `...Run` functions what a series of calls returns, so that the order of
    the items can be stated over all calls at once. */
module LibIterator {
  import opened Common
  import opened LibTypes
  import LibNode
  import LibKey

  /** `calls` results that are all `None`. */
  function Nones<T>(calls: nat): (r: seq<Option<T>>)
    ensures |r| == calls && forall j :: 0 <= j < calls ==> r[j].None?
  {
    seq(calls, _ => None)
  }

  /** The keys of a node in order, each wrapped as an item. */
  function KeyItems<V>(node: Node<V>): (r: seq<Option<Key<V>>>)
    ensures |r| == LibNode.KeysCount(node)
    ensures forall j :: 0 <= j < |r| ==> r[j] == Some(node.keys[j])
  {
    seq(|node.keys|, j requires 0 <= j < |node.keys| => Some(node.keys[j]))
  }

  /** The children of a node in the order `ChildIterator` visits them: each
      key's subtree (absent or not), then the trailing node, and nothing at
      all for a node without keys. */
  function ChildItems<V>(node: Node<V>): (r: seq<Option<Node<V>>>)
    ensures |r| == if |node.keys| == 0 then 0 else |node.keys| + 1
    ensures forall j :: 0 <= j < |node.keys| ==> r[j] == LibKey.PointedNode(node.keys[j])
    ensures |node.keys| > 0 ==> r[|node.keys|] == node.last_node
  {
    if |node.keys| == 0 then []
    else seq(|node.keys|, j requires 0 <= j < |node.keys| => LibKey.PointedNode(node.keys[j])) + [node.last_node]
  }

  /** Where the trailing node must be present for `ChildIterator::next`
      not to panic: the cursor is at the end of a non-empty key vector. */
  predicate ReachesLastNode<V>(node: Node<V>, index: nat) {
    index == |node.keys| && |node.keys| > 0
  }

  /** One call of `KeysIterator::next` with the cursor at `index`: the next
      key of the node and the cursor moved by one, or `None` and the cursor
      left where it is once every key was yielded. */
  function KeysStep<V>(node: Node<V>, index: nat): (r: (Option<Key<V>>, nat))
    ensures index < |KeyItems(node)| ==> r == (KeyItems(node)[index], index + 1)
    ensures index >= |KeyItems(node)| ==> r == (None, index)
  {
    if index < LibNode.KeysCount(node) then (Some(node.keys[index]), index + 1)
    else (None, index)
  }

  /** One call of `ChildIterator::next` with the cursor at `index`: the
      next child in visiting order (which may itself be `None`) and the
      cursor moved by one, or `None` and the cursor left where it is once
      every child was visited. */
  function ChildStep<V>(node: Node<V>, index: nat): (r: (Option<Node<V>>, nat))
    requires ReachesLastNode(node, index) ==> node.last_node.Some?
    ensures index < |ChildItems(node)| ==> r == (ChildItems(node)[index], index + 1)
    ensures index >= |ChildItems(node)| ==> r == (None, index)
  {
    var keyCount := LibNode.KeysCount(node);
    if index < keyCount then (LibKey.PointedNode(node.keys[index]), index + 1)
    else if index == keyCount && keyCount > 0 then (Some(node.last_node.value), index + 1)
    else (None, index)
  }

  /** The results of `calls` successive `KeysIterator::next` calls. */
  function KeysRun<V>(node: Node<V>, index: nat, calls: nat): seq<Option<Key<V>>>
    decreases calls
  {
    if calls == 0 then []
    else
      var (item, next) := KeysStep(node, index);
      [item] + KeysRun(node, next, calls - 1)
  }

  /** The results of `calls` successive `ChildIterator::next` calls: either
      the trailing node is there whenever the cursor can reach it, or the
      calls stop before the cursor reaches the end of the key vector. */
  function ChildRun<V>(node: Node<V>, index: nat, calls: nat): seq<Option<Node<V>>>
    requires (|node.keys| > 0 ==> node.last_node.Some?) || index + calls <= |node.keys|
    decreases calls
  {
    if calls == 0 then []
    else
      var (item, next) := ChildStep(node, index);
      [item] + ChildRun(node, next, calls - 1)
  }

  /** What `calls` further calls return when `items` is everything an
      iterator yields and `index` of them are already consumed: the rest of
      `items`, then `None` for every call beyond. */
  function Remaining<T>(items: seq<Option<T>>, index: nat, calls: nat): seq<Option<T>>
    requires index <= |items|
  {
    if index + calls <= |items| then items[index..index + calls]
    else items[index..] + Nones(index + calls - |items|)
  }

  /** One more call consumes the next item, or yields `None` at the end. */
  lemma RemainingStep<T>(items: seq<Option<T>>, index: nat, calls: nat)
    requires index <= |items| && calls > 0
    ensures index < |items| ==>
      Remaining(items, index, calls) == [items[index]] + Remaining(items, index + 1, calls - 1)
    ensures index == |items| ==>
      Remaining(items, index, calls) == [None] + Remaining(items, index, calls - 1)
  {
    if index < |items| {
      if index + calls <= |items| {
        assert items[index..index + calls] == [items[index]] + items[index + 1..index + calls];
      } else {
        assert items[index..] == [items[index]] + items[index + 1..];
      }
    } else {
      assert items[index..] == [];
      assert Nones<T>(calls) == [None] + Nones(calls - 1);
    }
  }

  /** From any cursor position, the keys iterator returns the remaining
      keys in order and then `None` on every further call. */
  lemma {:induction false} KeysRunFrom<V>(node: Node<V>, index: nat, calls: nat)
    requires index <= |node.keys|
    ensures KeysRun(node, index, calls) == Remaining(KeyItems(node), index, calls)
    decreases calls
  {
    var items := KeyItems(node);
    if calls > 0 {
      RemainingStep(items, index, calls);
      if index < |items| {
        assert KeysStep(node, index) == (items[index], index + 1);
        KeysRunFrom(node, index + 1, calls - 1);
      } else {
        assert KeysStep(node, index) == (None, index);
        KeysRunFrom(node, index, calls - 1);
      }
    }
  }

  /** A fresh keys iterator yields `keys[0]`, ..., `keys[n-1]` and then
      only `None`. */
  lemma KeysIteratorYieldsKeysInOrder<V>(node: Node<V>, extra: nat)
    ensures KeysRun(node, 0, LibNode.KeysCount(node) + extra) == KeyItems(node) + Nones(extra)
  {
    KeysRunFrom(node, 0, LibNode.KeysCount(node) + extra);
    assert KeyItems(node)[0..] == KeyItems(node);
  }

  /** From any cursor position, the child iterator returns the remaining
      children in order and then `None` on every further call. */
  lemma {:induction false} ChildRunFrom<V>(node: Node<V>, index: nat, calls: nat)
    requires (|node.keys| > 0 ==> node.last_node.Some?) || index + calls <= |node.keys|
    requires index <= |ChildItems(node)|
    ensures ChildRun(node, index, calls) == Remaining(ChildItems(node), index, calls)
    decreases calls
  {
    var items := ChildItems(node);
    if calls > 0 {
      RemainingStep(items, index, calls);
      if index < |items| {
        assert ChildStep(node, index) == (items[index], index + 1);
        ChildRunFrom(node, index + 1, calls - 1);
      } else {
        assert ChildStep(node, index) == (None, index);
        ChildRunFrom(node, index, calls - 1);
      }
    }
  }

  /** A fresh child iterator yields each key's subtree, then the trailing
      node, then only `None`: at most `n + 1` items, none at all for a node
      without keys (even when it has a trailing node). For a node with keys
      and a trailing node that is `child_count()` items. */
  lemma ChildIteratorYieldsChildrenInOrder<V>(node: Node<V>, extra: nat)
    requires |node.keys| > 0 ==> node.last_node.Some?
    ensures ChildRun(node, 0, |ChildItems(node)| + extra) == ChildItems(node) + Nones(extra)
    ensures |ChildItems(node)| <= LibNode.KeysCount(node) + 1
    ensures |node.keys| == 0 ==> ChildRun(node, 0, extra) == Nones(extra)
    ensures |node.keys| > 0 ==> |ChildItems(node)| == LibNode.ChildCount(node)
  {
    ChildRunFrom(node, 0, |ChildItems(node)| + extra);
    assert ChildItems(node)[0..] == ChildItems(node);
  }

  /** On a node with keys and no trailing node (a leaf, which is every node
      with keys the older copy can build), the first `n` calls answer
      without reaching the unwrap: each key's subtree, in order. */
  lemma ChildIteratorOnLeaf<V>(node: Node<V>)
    requires |node.keys| > 0 && LibNode.IsLeaf(node)
    ensures ChildRun(node, 0, |node.keys|) ==
      seq(|node.keys|, j requires 0 <= j < |node.keys| => LibKey.PointedNode(node.keys[j]))
  {
    var n := |node.keys|;
    ChildRunFrom(node, 0, n);
    assert ChildItems(node)[0..n] ==
      seq(n, j requires 0 <= j < n => LibKey.PointedNode(node.keys[j]));
  }

  /** `KeysIterator`: a cursor over the keys of a borrowed node. */
  class KeysIterator<V> {
    const node: Node<V>
    var index: nat

    /** The cursor never passes the end of the key vector. */
    ghost predicate Valid()
      reads this
    {
      index <= |node.keys|
    }

    /** `KeysIterator::new(node)`: the cursor starts at the first key. */
    constructor (node: Node<V>)
      ensures this.node == node && index == 0 && Valid()
    {
      this.node := node;
      index := 0;
    }

    /** `next()`: the key under the cursor, moving the cursor by one, or
        `None` with the cursor left where it is at the end. */
    method Next() returns (r: Option<Key<V>>)
      requires Valid()
      modifies this
      ensures Valid()
      ensures (r, index) == KeysStep(node, old(index))
      ensures r.Some? <==> old(index) < LibNode.KeysCount(node)
      ensures r.Some? ==> r.value == node.keys[old(index)] && index == old(index) + 1
      ensures r.None? ==> index == old(index) == LibNode.KeysCount(node)
    {
      if index < LibNode.KeysCount(node) {
        r := Some(node.keys[index]);
        index := index + 1;
      } else {
        r := None;
      }
    }
  }

  /** `ChildIterator`: a cursor over the children of a borrowed node. */
  class ChildIterator<V> {
    const node: Node<V>
    var index: nat

    /** The cursor never passes one beyond the trailing node. */
    ghost predicate Valid()
      reads this
    {
      index <= |ChildItems(node)|
    }

    /** `ChildIterator::new(node)`: the cursor starts at the first key. */
    constructor (node: Node<V>)
      ensures this.node == node && index == 0 && Valid()
    {
      this.node := node;
      index := 0;
    }

    /** `next()`: the subtree of the key under the cursor (which may be
        `None` without ending the iteration), then the trailing node, then
        `None` for good. The trailing node is unwrapped, so it must be
        there once the cursor reaches it. */
    method Next() returns (r: Option<Node<V>>)
      requires Valid()
      requires ReachesLastNode(node, index) ==> node.last_node.Some?
      modifies this
      ensures Valid()
      ensures (r, index) == ChildStep(node, old(index))
      ensures old(index) < |ChildItems(node)| ==>
        r == ChildItems(node)[old(index)] && index == old(index) + 1
      ensures old(index) == |ChildItems(node)| ==> r.None? && index == old(index)
    {
      var keyCount := LibNode.KeysCount(node);
      if index < keyCount {
        r := LibKey.PointedNode(node.keys[index]);
        index := index + 1;
      } else if index == keyCount && keyCount > 0 {
        r := Some(node.last_node.value);
        index := index + 1;
      } else {
        r := None;
      }
    }
  }
}
